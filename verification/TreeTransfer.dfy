/** Whole-tree packing end to end: a directory tree becomes a manifest and a virtual
    stream, the stream travels in blocks, and the receiver splits it back into a tree. */
module TreeTransfer {
  import opened Bytes
  import opened Paths
  import opened Merkle
  import opened Manifest
  import PackedTree
  import Blocks
  import opened Unpack
  import opened UnpackProof

  // ---- Sorting by path ------------------------------------------------------------------------

  function Insert(p: Path, s: seq<Path>): seq<Path> {
    if s == [] || !Less(s[0], p) then [p] + s else [s[0]] + Insert(p, s[1..])
  }

  /** `sort_by(|a, b| a.cmp(b))`. */
  function SortPaths(s: seq<Path>): seq<Path> {
    if s == [] then [] else Insert(s[0], SortPaths(s[1..]))
  }

  predicate Ascending(s: seq<Path>) {
    forall i, j :: 0 <= i < j < |s| ==> Less(s[i], s[j])
  }

  predicate Distinct(s: seq<Path>) {
    forall i, j :: 0 <= i < j < |s| ==> s[i] != s[j]
  }

  lemma {:induction false} LessTransitive(a: Path, b: Path, c: Path)
    requires Less(a, b) && Less(b, c)
    ensures Less(a, c)
  {
    if a != [] && a[0] == b[0] == c[0] {
      LessTransitive(a[1..], b[1..], c[1..]);
    }
  }

  lemma {:induction false} InsertAscending(p: Path, s: seq<Path>)
    requires Ascending(s) && p !in s
    ensures Ascending(Insert(p, s))
    ensures forall q :: q in Insert(p, s) <==> q == p || q in s
  {
    hide Less;
    if s != [] {
      LessTrichotomy(s[0], p);
      if Less(s[0], p) {
        InsertAscending(p, s[1..]);
        var r := Insert(p, s[1..]);
        forall i | 0 <= i < |r|
          ensures Less(s[0], r[i])
        {
          assert r[i] in r;
        }
      } else {
        forall i | 0 <= i < |s|
          ensures Less(p, s[i])
        {
          if i > 0 {
            LessTransitive(p, s[0], s[i]);
          }
        }
      }
    }
  }

  lemma {:induction false} SortAscending(s: seq<Path>)
    requires Distinct(s)
    ensures Ascending(SortPaths(s)) && forall q :: q in SortPaths(s) <==> q in s
  {
    if s != [] {
      SortAscending(s[1..]);
      InsertAscending(s[0], SortPaths(s[1..]));
      assert s == [s[0]] + s[1..];
    }
  }

  /** There is one ascending arrangement of a set of paths. */
  lemma {:induction false} AscendingUnique(a: seq<Path>, b: seq<Path>)
    requires Ascending(a) && Ascending(b) && forall q :: q in a <==> q in b
    ensures a == b
    decreases |a|
  {
    hide Less;
    if a != [] || b != [] {
      assert a != [] ==> a[0] in a;
      assert b != [] ==> b[0] in b;
      LessTrichotomy(a[0], b[0]);
      assert a[0] == b[0];
      forall q
        ensures q in a[1..] <==> q in b[1..]
      {
        LessTrichotomy(a[0], a[0]);
        assert q in a <==> q == a[0] || q in a[1..];
        assert q in b <==> q == b[0] || q in b[1..];
      }
      AscendingUnique(a[1..], b[1..]);
      assert a == [a[0]] + a[1..] && b == [b[0]] + b[1..];
    }
  }

  // ---- build_manifest -----------------------------------------------------------------------------

  /** The order the walk found the nodes in: each once. */
  ghost predicate Listing(t: FileTree, listing: seq<Path>) {
    Distinct(listing) && forall p :: p in listing <==> p in t
  }

  function Select(t: FileTree, listing: seq<Path>, dirs: bool): (r: seq<Path>)
    ensures forall p :: p in r <==> p in listing && p in t && t[p].DirNode? == dirs
    ensures Distinct(listing) ==> Distinct(r)
  {
    if listing == [] then []
    else
      var rest := Select(t, listing[1..], dirs);
      if listing[0] in t && t[listing[0]].DirNode? == dirs then [listing[0]] + rest else rest
  }

  const NO_DIGEST: Digest := seq(32, _ => 0)

  function DirEntries(t: FileTree, ps: seq<Path>): (es: seq<Entry>)
    requires forall p :: p in ps ==> p in t
    ensures |es| == |ps|
  {
    seq(|ps|, i requires 0 <= i < |ps| => Entry(Dir, ps[i], t[ps[i]].mode, 0, 0, NO_DIGEST))
  }

  predicate AllFiles(t: FileTree, ps: seq<Path>) {
    forall i :: 0 <= i < |ps| ==> IsFile(t, ps[i])
  }

  function TotalSize(t: FileTree, ps: seq<Path>): nat
    requires AllFiles(t, ps)
  {
    if ps == [] then 0 else |t[ps[0]].bytes| + TotalSize(t, ps[1..])
  }

  /** Files laid end to end from `at`. */
  function FileEntries(hash: seq<byte> -> Digest, t: FileTree, ps: seq<Path>, at: nat): (es: seq<Entry>)
    requires AllFiles(t, ps)
    requires at + TotalSize(t, ps) < U64_LIMIT
    ensures |es| == |ps|
  {
    if ps == [] then []
    else
      var bytes := t[ps[0]].bytes;
      [Entry(File, ps[0], t[ps[0]].mode, |bytes|, at, hash(bytes))]
      + FileEntries(hash, t, ps[1..], at + |bytes|)
  }

  function SortedDirs(t: FileTree, listing: seq<Path>): (ps: seq<Path>)
    requires Distinct(listing)
    ensures forall p :: p in ps ==> p in t
  {
    SortAscending(Select(t, listing, true));
    SortPaths(Select(t, listing, true))
  }

  function SortedFiles(t: FileTree, listing: seq<Path>): (ps: seq<Path>)
    requires Distinct(listing)
    ensures AllFiles(t, ps)
  {
    SortAscending(Select(t, listing, false));
    SortPaths(Select(t, listing, false))
  }

  function Built(hash: seq<byte> -> Digest, t: FileTree, listing: seq<Path>): Manifest
    requires Distinct(listing) && TotalSize(t, SortedFiles(t, listing)) < U64_LIMIT
  {
    var files := SortedFiles(t, listing);
    var es := DirEntries(t, SortedDirs(t, listing)) + FileEntries(hash, t, files, 0);
    Manifest(es, TotalSize(t, files), Root(hash, es))
  }

  lemma {:induction false} FilesFrom(hash: seq<byte> -> Digest, t: FileTree, ps: seq<Path>, i: nat, at: nat)
    requires AllFiles(t, ps) && i < |ps| && at + TotalSize(t, ps[i..]) < U64_LIMIT
    ensures IsFile(t, ps[i])
    ensures var bytes := t[ps[i]].bytes;
            && TotalSize(t, ps[i..]) == |bytes| + TotalSize(t, ps[i + 1..])
            && FileEntries(hash, t, ps[i..], at)
               == [Entry(File, ps[i], t[ps[i]].mode, |bytes|, at, hash(bytes))]
                  + FileEntries(hash, t, ps[i + 1..], at + |bytes|)
  {
    assert ps[i..][1..] == ps[i + 1..];
  }

  lemma {:induction false} FilesFromNone(hash: seq<byte> -> Digest, t: FileTree, ps: seq<Path>, at: nat)
    requires |ps| == 0 && at < U64_LIMIT
    ensures TotalSize(t, ps) == 0 && FileEntries(hash, t, ps, at) == []
  {
  }

  lemma AllListedSafe(t: FileTree, listing: seq<Path>)
    requires Listing(t, listing)
    requires forall j :: 0 <= j < |SortedDirs(t, listing)| ==> SafePath(SortedDirs(t, listing)[j])
    requires forall j :: 0 <= j < |SortedFiles(t, listing)| ==> SafePath(SortedFiles(t, listing)[j])
    ensures forall p :: p in t ==> SafePath(p)
  {
    hide SafePath, SortedDirs, SortedFiles;
    SortedCover(t, listing);
    forall p | p in t
      ensures SafePath(p)
    {
      assert p in SortedDirs(t, listing) || p in SortedFiles(t, listing);
    }
  }

  method BuildManifest(hash: seq<byte> -> Digest, t: FileTree, listing: seq<Path>)
    returns (r: Result<Manifest, ManifestError>)
    requires Listing(t, listing) && TotalSize(t, SortedFiles(t, listing)) < U64_LIMIT
    ensures r.Ok? <==> forall p :: p in t ==> SafePath(p)
    ensures r.Ok? ==> r.value == Built(hash, t, listing)
    ensures r.Err? ==> r == Err(UnsafePath)
  {
    hide SafePath, SortedDirs, SortedFiles, TotalSize, FileEntries;
    var dirs, files := SortedDirs(t, listing), SortedFiles(t, listing);
    SortedCover(t, listing);
    var entries: seq<Entry> := [];
    for i := 0 to |dirs|
      invariant entries == DirEntries(t, dirs)[..i]
      invariant forall j :: 0 <= j < i ==> SafePath(dirs[j])
    {
      if !SafePath(dirs[i]) {
        return Err(UnsafePath);
      }
      entries := entries + [Entry(Dir, dirs[i], t[dirs[i]].mode, 0, 0, NO_DIGEST)];
    }
    ghost var ds := entries;
    ghost var whole := FileEntries(hash, t, files, 0);
    var offset: nat := 0;
    assert files[0..] == files;
    for i := 0 to |files|
      invariant offset + TotalSize(t, files[i..]) == TotalSize(t, files)
      invariant ds + whole == entries + FileEntries(hash, t, files[i..], offset)
      invariant forall j :: 0 <= j < i ==> SafePath(files[j])
    {
      var p := files[i];
      assert p in files;
      FilesFrom(hash, t, files, i, offset);
      if !SafePath(p) {
        return Err(UnsafePath);
      }
      var bytes := t[p].bytes;
      var e := Entry(File, p, t[p].mode, |bytes|, offset, hash(bytes));
      entries := entries + [e];
      offset := offset + |bytes|;
    }
    FilesFromNone(hash, t, files[|files|..], offset);
    assert ds == DirEntries(t, dirs) && entries == ds + whole;
    AllListedSafe(t, listing);
    var root := MerkleRoot(hash, entries);
    r := Ok(Manifest(entries, offset, root));
  }

  lemma SortedCover(t: FileTree, listing: seq<Path>)
    requires Listing(t, listing)
    ensures var dirs, files := SortedDirs(t, listing), SortedFiles(t, listing);
            && Ascending(dirs) && Ascending(files)
            && (forall p :: p in dirs <==> IsDir(t, p)) && (forall p :: p in files <==> IsFile(t, p))
  {
    SortAscending(Select(t, listing, true));
    SortAscending(Select(t, listing, false));
  }

  /** The manifest, and so the Merkle root, does not depend on the order directories
      were read in. */
  lemma {:induction false} BuildIsOrderIndependent(hash: seq<byte> -> Digest, t: FileTree, l: seq<Path>, l': seq<Path>)
    requires Listing(t, l) && Listing(t, l') && TotalSize(t, SortedFiles(t, l)) < U64_LIMIT
    ensures SortedFiles(t, l) == SortedFiles(t, l') && Built(hash, t, l) == Built(hash, t, l')
  {
    hide SortedDirs, SortedFiles;
    SortedCover(t, l);
    SortedCover(t, l');
    AscendingUnique(SortedDirs(t, l), SortedDirs(t, l'));
    AscendingUnique(SortedFiles(t, l), SortedFiles(t, l'));
  }

  /** Directories come before files, and both in byte order of their paths. */
  lemma {:induction false} BuiltInOrder(hash: seq<byte> -> Digest, t: FileTree, listing: seq<Path>, i: nat, j: nat)
    requires Listing(t, listing) && TotalSize(t, SortedFiles(t, listing)) < U64_LIMIT
    requires i < j < |Built(hash, t, listing).entries|
    ensures var es := Built(hash, t, listing).entries;
            (es[i].kind == Dir && es[j].kind == File) || (es[i].kind == es[j].kind && Before(es[i].path, es[j].path))
  {
    hide SortedDirs, SortedFiles, FileEntries, TotalSize, Root, Less, Before;
    var dirs, files := SortedDirs(t, listing), SortedFiles(t, listing);
    var es := Built(hash, t, listing).entries;
    SortedCover(t, listing);
    if i >= |dirs| {
      FileEntryAt(hash, t, files, 0, i - |dirs|);
    }
    if j >= |dirs| {
      FileEntryAt(hash, t, files, 0, j - |dirs|);
    }
    LessMeans(es[i].path, es[j].path);
  }

  /** An entry for a directory carries its mode and otherwise zeros. */
  lemma {:induction false} BuiltDirs(hash: seq<byte> -> Digest, t: FileTree, listing: seq<Path>, e: Entry)
    requires Listing(t, listing) && TotalSize(t, SortedFiles(t, listing)) < U64_LIMIT
    requires e in Built(hash, t, listing).entries && e.kind == Dir
    ensures IsDir(t, e.path) && e.mode == t[e.path].mode && e.size == 0 && e.offset == 0
    ensures forall i :: 0 <= i < 32 ==> e.sha256[i] == 0
  {
    hide SortedDirs, SortedFiles, FileEntries, TotalSize, Root, Less;
    var dirs, files := SortedDirs(t, listing), SortedFiles(t, listing);
    var es := Built(hash, t, listing).entries;
    SortedCover(t, listing);
    var i :| 0 <= i < |es| && es[i] == e;
    if i >= |dirs| {
      FileEntryAt(hash, t, files, 0, i - |dirs|);
      assert false;
    }
    assert dirs[i] in dirs;
  }

  // ---- What the built manifest says --------------------------------------------------------------

  /** The file contents the sender's reader finds on disk. */
  function Contents(t: FileTree): PackedTree.Disk {
    map p | p in t && t[p].FileNode? :: t[p].bytes
  }

  lemma {:induction false} FileEntryAt(hash: seq<byte> -> Digest, t: FileTree, ps: seq<Path>, at: nat, i: nat)
    requires AllFiles(t, ps) && at + TotalSize(t, ps) < U64_LIMIT && i < |ps|
    ensures var e := FileEntries(hash, t, ps, at)[i];
            && e.kind == File && e.path == ps[i] && e.mode == t[ps[i]].mode
            && e.size == |t[ps[i]].bytes| && e.sha256 == hash(t[ps[i]].bytes)
  {
    if i > 0 {
      FileEntryAt(hash, t, ps[1..], at + |t[ps[0]].bytes|, i - 1);
    }
  }

  lemma {:induction false} FilesLaidOut(hash: seq<byte> -> Digest, t: FileTree, ps: seq<Path>, at: nat)
    requires AllFiles(t, ps) && at + TotalSize(t, ps) < U64_LIMIT
    ensures LaidOut(FileEntries(hash, t, ps, at), at, at + TotalSize(t, ps))
  {
    if ps != [] {
      FilesLaidOut(hash, t, ps[1..], at + |t[ps[0]].bytes|);
      assert FileEntries(hash, t, ps, at)[1..] == FileEntries(hash, t, ps[1..], at + |t[ps[0]].bytes|);
    }
  }

  lemma {:induction false} DirsThenLaidOut(ds: seq<Entry>, rest: seq<Entry>, at: u64, end: u64)
    requires forall i :: 0 <= i < |ds| ==> ds[i].kind == Dir && ds[i].size == 0 && ds[i].offset == 0
    requires LaidOut(rest, at, end)
    ensures LaidOut(ds + rest, at, end)
  {
    if ds == [] {
      assert ds + rest == rest;
    } else {
      DirsThenLaidOut(ds[1..], rest, at, end);
      assert (ds + rest)[1..] == ds[1..] + rest;
    }
  }

  lemma {:induction false} OfKindAppend(a: seq<Entry>, b: seq<Entry>, k: EntryKind)
    ensures OfKind(a + b, k) == OfKind(a, k) + OfKind(b, k)
  {
    if a == [] {
      assert a + b == b;
    } else {
      FrontApart(a, b);
      OfKindAppend(a[1..], b, k);
    }
  }

  lemma FrontApart<T>(a: seq<T>, b: seq<T>)
    requires a != []
    ensures a + b != [] && (a + b)[0] == a[0] && (a + b)[1..] == a[1..] + b
  {
  }

  lemma {:induction false} OfOneKind(es: seq<Entry>, k: EntryKind, other: EntryKind)
    requires k != other && forall i :: 0 <= i < |es| ==> es[i].kind == k
    ensures OfKind(es, k) == es && OfKind(es, other) == []
  {
    if es != [] {
      OfOneKind(es[1..], k, other);
      assert es == [es[0]] + es[1..];
    }
  }

  predicate SizedAs(t: FileTree, e: Entry) {
    e.kind == File ==> IsFile(t, e.path) && e.size == |t[e.path].bytes|
  }

  predicate AllSizedAs(t: FileTree, es: seq<Entry>) {
    forall i :: 0 <= i < |es| ==> SizedAs(t, es[i])
  }

  lemma {:induction false} SizedIsBacked(t: FileTree, es: seq<Entry>)
    requires AllSizedAs(t, es)
    ensures PackedTree.Backed(PackedTree.Extents(es), Contents(t))
  {
    if es != [] {
      assert SizedAs(t, es[0]);
      assert forall i :: 0 < i < |es| ==> es[i] == es[1..][i - 1];
      SizedIsBacked(t, es[1..]);
    }
  }

  /** The bytes an entry contributes to the region. */
  function EntryContent(t: FileTree, e: Entry): seq<byte>
    requires SizedAs(t, e)
  {
    if e.kind == File then t[e.path].bytes else []
  }

  lemma {:induction false} RegionFront(t: FileTree, es: seq<Entry>)
    requires es != [] && AllSizedAs(t, es)
    ensures SizedAs(t, es[0]) && AllSizedAs(t, es[1..])
    ensures PackedTree.Backed(PackedTree.Extents(es), Contents(t))
    ensures PackedTree.Backed(PackedTree.Extents(es[1..]), Contents(t))
    ensures PackedTree.Region(PackedTree.Extents(es), Contents(t))
         == EntryContent(t, es[0]) + PackedTree.Region(PackedTree.Extents(es[1..]), Contents(t))
  {
    assert forall j :: 0 < j < |es| ==> es[j] == es[1..][j - 1];
    SizedIsBacked(t, es);
    SizedIsBacked(t, es[1..]);
    assert SizedAs(t, es[0]);
    hide AllSizedAs;
    var e := es[0];
    if e.kind == File && e.size > 0 {
      ExtentsFront(es);
      hide PackedTree.Extents;
      assert t[e.path].bytes[..e.size] == t[e.path].bytes;
    } else {
      assert PackedTree.Extents(es) == PackedTree.Extents(es[1..]);
      hide PackedTree.Extents, PackedTree.Region, PackedTree.Backed;
      NothingInFront(EntryContent(t, e), PackedTree.Region(PackedTree.Extents(es[1..]), Contents(t)));
    }
  }

  lemma NothingInFront(none: seq<byte>, s: seq<byte>)
    requires |none| == 0
    ensures none + s == s
  {
  }

  lemma {:induction false} ExtentsFront(es: seq<Entry>)
    requires es != [] && es[0].kind == File && es[0].size > 0
    ensures var xs := PackedTree.Extents(es);
            && xs != [] && xs[0] == PackedTree.Extent(es[0].offset, es[0].size, es[0].path)
            && xs[1..] == PackedTree.Extents(es[1..])
  {
  }

  /** The region holds each file's bytes where its entry says they are. */
  lemma {:induction false} RegionHolds(t: FileTree, es: seq<Entry>, at: u64, end: u64, i: nat)
    requires LaidOut(es, at, end) && AllSizedAs(t, es)
    requires i < |es| && es[i].kind == File
    ensures PackedTree.Backed(PackedTree.Extents(es), Contents(t))
    ensures var region := PackedTree.Region(PackedTree.Extents(es), Contents(t));
            && at <= es[i].offset && es[i].offset - at + es[i].size <= |region|
            && SizedAs(t, es[i])
            && region[es[i].offset - at..es[i].offset - at + es[i].size] == EntryContent(t, es[i])
  {
    hide PackedTree.Region, PackedTree.Extents, PackedTree.Backed, Contents, AllSizedAs;
    RegionFront(t, es);
    var bytes := EntryContent(t, es[0]);
    var region' := PackedTree.Region(PackedTree.Extents(es[1..]), Contents(t));
    if i > 0 {
      var next := Place(es[0], at).value;
      assert next == at + |bytes|;
      RegionHolds(t, es[1..], next, end, i - 1);
      hide LaidOut, Place, EntryContent;
      PackedTree.ShiftWindow(bytes, region', es[i].offset - next, es[i].size);
    } else {
      FrontIs(bytes, region');
    }
  }

  lemma FrontIs(a: seq<byte>, b: seq<byte>)
    ensures |a + b| == |a| + |b| && (a + b)[..|a|] == a
  {
  }

  /** Entry `i` of a built manifest's files. */
  predicate BuiltFrom(hash: seq<byte> -> Digest, t: FileTree, p: Path, e: Entry) {
    && IsFile(t, p) && e.kind == File && e.path == p && e.mode == t[p].mode
    && e.size == |t[p].bytes| && e.sha256 == hash(t[p].bytes)
  }

  lemma {:induction false} BuiltParts(hash: seq<byte> -> Digest, t: FileTree, listing: seq<Path>)
    requires Listing(t, listing) && TotalSize(t, SortedFiles(t, listing)) < U64_LIMIT
    ensures var m := Built(hash, t, listing);
            && LaidOut(m.entries, 0, m.totalLen) && AllSizedAs(t, m.entries)
            && OfKind(m.entries, Dir) == DirEntries(t, SortedDirs(t, listing))
            && OfKind(m.entries, File) == FileEntries(hash, t, SortedFiles(t, listing), 0)
    ensures var fl, files := FileEntries(hash, t, SortedFiles(t, listing), 0), SortedFiles(t, listing);
            forall i :: 0 <= i < |fl| ==> BuiltFrom(hash, t, files[i], fl[i])
  {
    hide SortedDirs, SortedFiles, Root, LaidOut, FileEntries, TotalSize, OfKind;
    var dirs, files := SortedDirs(t, listing), SortedFiles(t, listing);
    SortedCover(t, listing);
    var m := Built(hash, t, listing);
    var ds, fl := DirEntries(t, dirs), FileEntries(hash, t, files, 0);
    forall i | 0 <= i < |fl|
      ensures BuiltFrom(hash, t, files[i], fl[i])
    {
      FileEntryAt(hash, t, files, 0, i);
    }
    assert forall i :: 0 <= i < |fl| ==> SizedAs(t, fl[i]);
    BuiltKinds(ds, fl);
    FilesLaidOut(hash, t, files, 0);
    DirsThenLaidOut(ds, fl, 0, m.totalLen);
  }

  lemma {:induction false} BuiltKinds(ds: seq<Entry>, fl: seq<Entry>)
    requires forall i :: 0 <= i < |ds| ==> ds[i].kind == Dir
    requires forall i :: 0 <= i < |fl| ==> fl[i].kind == File
    ensures OfKind(ds + fl, Dir) == ds && OfKind(ds + fl, File) == fl
  {
    OfKindAppend(ds, fl, Dir);
    OfKindAppend(ds, fl, File);
    OfOneKind(ds, Dir, File);
    OfOneKind(fl, File, Dir);
  }

  /** A built manifest describes its tree, wherever a prefix puts the file region. */
  lemma {:induction false} BuiltDescribes(hash: seq<byte> -> Digest, t: FileTree, listing: seq<Path>, prefix: seq<byte>)
    requires Listing(t, listing) && TotalSize(t, SortedFiles(t, listing)) < U64_LIMIT
    ensures var m := Built(hash, t, listing);
            var files := PackedTree.Extents(m.entries);
            && PackedTree.Backed(files, Contents(t))
            && Describes(hash, t, prefix + PackedTree.Region(files, Contents(t)), |prefix|, m)
  {
    hide SortedDirs, SortedFiles, LaidOut, FileEntries, TotalSize, OfKind, Built;
    hide PackedTree.Region, PackedTree.Extents;
    BuiltParts(hash, t, listing);
    SortedCover(t, listing);
    var m := Built(hash, t, listing);
    var ds, fl := OfKind(m.entries, Dir), OfKind(m.entries, File);
    SizedIsBacked(t, m.entries);
    var region := PackedTree.Region(PackedTree.Extents(m.entries), Contents(t));
    var packed := prefix + region;
    forall i | 0 <= i < |fl|
      ensures Matches(hash, t, packed, |prefix|, fl[i])
    {
      var e := fl[i];
      assert BuiltFrom(hash, t, SortedFiles(t, listing)[i], e);
      OfKindFrom(m.entries, File, i);
      var k :| 0 <= k < |m.entries| && m.entries[k] == e;
      RegionHolds(t, m.entries, 0, m.totalLen, k);
      assert packed[|prefix| + e.offset..|prefix| + e.offset + e.size] == region[e.offset..e.offset + e.size];
    }
    forall i | 0 <= i < |ds|
      ensures Matches(hash, t, packed, |prefix|, ds[i])
    {
      assert SortedDirs(t, listing)[i] in SortedDirs(t, listing);
    }
    CoversPaths(SortedDirs(t, listing), ds);
    CoversPaths(SortedFiles(t, listing), fl);
    AscendingDistinct(SortedFiles(t, listing));
    assert DistinctPaths(fl);
  }

  lemma CoversPaths(ps: seq<Path>, es: seq<Entry>)
    requires |ps| == |es| && forall i :: 0 <= i < |es| ==> es[i].path == ps[i]
    ensures forall p :: p in ps ==> p in PathSet(es)
  {
    forall p | p in ps
      ensures p in PathSet(es)
    {
      var i :| 0 <= i < |ps| && ps[i] == p;
      assert es[i].path == p;
    }
  }

  lemma AscendingDistinct(ps: seq<Path>)
    requires Ascending(ps)
    ensures Distinct(ps)
  {
    forall i, j | 0 <= i < j < |ps|
      ensures ps[i] != ps[j]
    {
      LessTrichotomy(ps[i], ps[j]);
    }
  }

  // ---- Pack, then unpack ---------------------------------------------------------------------------

  /** No directory of the tree bears the temporary name of one of its files. */
  predicate NoTempDirs(t: FileTree) {
    forall p :: p in t && t[p].FileNode? ==> !IsDir(t, TempName(p))
  }

  /** In path order a file comes before anything its temporary name could be: that name
      extends its own. */
  lemma TempNamesComeLater(ps: seq<Path>, es: seq<Entry>, i: nat)
    requires Ascending(ps) && |ps| == |es| && (forall j :: 0 <= j < |es| ==> es[j].path == ps[j])
    requires i < |es|
    ensures TempName(es[i].path) !in PathSet(es[..i])
  {
    hide Less;
    var tmp := TempName(es[i].path);
    if tmp in PathSet(es[..i]) {
      var j :| 0 <= j < |es[..i]| && es[..i][j].path == tmp;
      PrefixLess(ps[i], tmp);
      LessTrichotomy(ps[j], ps[i]);
    }
  }

  /** Every directory with an entry of the tree in it ends up with a mode that lets the
      receiver make entries in it. */
  predicate OpenTree(host: Host, t: FileTree) {
    forall p :: p in t && Parent(p) in t ==> Usable(host, Shown(host, t[Parent(p)]).mode)
  }

  lemma {:induction false} ParentIs(d: Path, n: Path)
    requires 0x2F !in n
    ensures Parent(d + [0x2F] + n) == d
  {
    ParentOfLonger(d + [SLASH], n);
    assert (d + [SLASH])[..|d|] == d;
  }

  /** What is not in the root is its parent, a slash and a name. */
  lemma {:induction false} ParentAndName(p: Path) returns (n: Path)
    requires Parent(p) != []
    ensures 0x2F !in n && p == Parent(p) + [0x2F] + n
  {
    var i := |p| - 1;
    if p[i] == SLASH {
      n := [];
      assert p == p[..i] + [SLASH] + n;
    } else {
      var m := ParentAndName(p[..i]);
      n := m + [p[i]];
      assert p == p[..i] + [p[i]];
    }
  }

  /** The mode `d` is left with lets its owner write and search it. */
  predicate OwnerMayAdd(host: Host, t: FileTree, d: Path)
    requires d in t
  {
    var mode := if t[d].mode == 0 then host.dirMode else t[d].mode;
    mode / 0x80 % 2 == 1 && mode / 0x40 % 2 == 1
  }

  ghost predicate Holds(t: FileTree, d: Path, n: Path) {
    0x2F !in n && d + [0x2F] + n in t
  }

  /** A tree is open to a privileged receiver, and to another exactly when the owner may
      write and search every directory that holds a name. */
  lemma {:induction false} OpenMeans(host: Host, t: FileTree)
    requires ValidTree(t)
    ensures OpenTree(host, t) <==>
              host.privileged || forall d, n :: d in t && Holds(t, d, n) ==> OwnerMayAdd(host, t, d)
  {
    hide SafePath;
    if OpenTree(host, t) {
      forall d, n | d in t && Holds(t, d, n)
        ensures host.privileged || OwnerMayAdd(host, t, d)
      {
        ParentIs(d, n);
        assert Above(d, d + [0x2F] + n);
      }
    } else {
      var p :| p in t && Parent(p) in t && !Usable(host, Shown(host, t[Parent(p)]).mode);
      assert SafePath(Parent(p));
      NotTheRoot(Parent(p));
      var n := ParentAndName(p);
      assert Above(Parent(p), p);
      assert Holds(t, Parent(p), n);
    }
  }

  lemma NotTheRoot(p: Path)
    requires SafePath(p)
    ensures p != []
  {
  }

  lemma {:induction false} NearestAbove(a: Path, p: Path)
    requires Above(a, p)
    ensures a == Parent(p) || Above(a, Parent(p))
  {
    var n := |p| - 1;
    if p[n] != SLASH {
      NearestAbove(a, p[..n]);
    }
  }

  /** In an open tree all the directories above a node can be searched. */
  lemma {:induction false} OpenAbove(host: Host, t: FileTree, a: Path, p: Path)
    requires ValidTree(t) && OpenTree(host, t) && p in t && Above(a, p)
    ensures IsDir(t, a) && Enterable(host, Shown(host, t[a]))
    decreases |p|
  {
    hide SafePath;
    NearestAbove(a, p);
    if a != Parent(p) {
      ParentIsNearest(p);
      OpenAbove(host, t, a, Parent(p));
    }
  }

  /** The directories in path order: above entry `i` there are earlier entries only, below
      it later ones only. */
  ghost predicate DirsInOrder(t: FileTree, dirs: seq<Path>, ds: seq<Entry>) {
    && Ascending(dirs) && |ds| == |dirs| && (forall i :: 0 <= i < |ds| ==> ds[i].path == dirs[i])
    && forall p :: p in dirs <==> IsDir(t, p)
  }

  lemma {:induction false} EarlierDirs(t: FileTree, dirs: seq<Path>, ds: seq<Entry>, i: nat, q: Path)
    requires ValidTree(t) && DirsInOrder(t, dirs, ds) && i < |ds|
    ensures Above(q, dirs[i]) ==> q in PathSet(ds[..i])
    ensures q == dirs[i] || Above(dirs[i], q) ==> q !in PathSet(ds[..i])
  {
    hide SafePath, Less;
    if Above(q, dirs[i]) {
      assert dirs[i] in dirs && IsDir(t, q);
      var k :| 0 <= k < |dirs| && dirs[k] == q;
      PrefixLess(q, dirs[i]);
      LessTrichotomy(dirs[i], dirs[k]);
      assert ds[..i][k].path == q;
    }
    if q in PathSet(ds[..i]) {
      var k :| 0 <= k < |ds[..i]| && ds[..i][k].path == q;
      assert Less(dirs[k], dirs[i]);
      LessTrichotomy(dirs[k], dirs[i]);
      if Above(dirs[i], q) {
        PrefixLess(dirs[i], q);
      }
    }
  }

  /** Directory `i` can be made after those before it exactly if the one it lies in lets it
      and those above can be searched. */
  lemma {:induction false} MayMakeMeans(host: Host, t: FileTree, dirs: seq<Path>, ds: seq<Entry>, i: nat)
    requires ValidTree(t) && DirsInOrder(t, dirs, ds) && i < |ds|
    ensures MayMake(host, t, PathSet(ds[..i]), dirs[i]) <==> FileOpen(host, t, dirs[i])
  {
    hide SafePath, Above, PathSet, DirsInOrder;
    DirAt(t, dirs, ds, i);
    var P, p := PathSet(ds[..i]), dirs[i];
    var fs, r := Made(host, t, P), Restored(host, t);
    forall q
      ensures Above(q, p) ==> q in P && q in fs && q in r && fs[q] == r[q]
      ensures (q == p || Above(p, q)) ==> q !in P
      ensures q in Lineage(p) <==> q == p || Above(q, p)
    {
      EarlierDirs(t, dirs, ds, i, q);
      LineageMeans(p, q);
    }
    assert p !in fs;
    ParentIsNearest(p);
    assert MayAdd(host, fs, p) <==> MayAdd(host, r, p);
    assert Reachable(host, fs, p) <==> Reachable(host, r, p);
  }

  lemma {:induction false} DirAt(t: FileTree, dirs: seq<Path>, ds: seq<Entry>, i: nat)
    requires DirsInOrder(t, dirs, ds) && i < |ds|
    ensures i < |dirs| && ds[i].path == dirs[i] && IsDir(t, dirs[i])
  {
    hide Ascending;
    assert dirs[i] in dirs;
  }

  /** In path order every directory can be made and every file placed, exactly in an open
      tree. */
  lemma {:induction false} OpenExactly(host: Host, t: FileTree, dirs: seq<Path>, ds: seq<Entry>)
    requires ValidTree(t) && DirsInOrder(t, dirs, ds)
    ensures DirsOpen(host, t, ds) && (forall p :: IsFile(t, p) ==> FileOpen(host, t, p)) <==> OpenTree(host, t)
  {
    hide SafePath, MayMake, FileOpen, Above;
    forall i | 0 <= i < |ds|
      ensures MayMake(host, t, PathSet(ds[..i]), ds[i].path) <==> FileOpen(host, t, dirs[i])
    {
      MayMakeMeans(host, t, dirs, ds, i);
    }
    if OpenTree(host, t) {
      forall p | p in t
        ensures FileOpen(host, t, p)
      {
        OpenFile(host, t, p);
      }
      forall i | 0 <= i < |ds|
        ensures MayMake(host, t, PathSet(ds[..i]), ds[i].path)
      {
        assert dirs[i] in dirs;
      }
    }
    if DirsOpen(host, t, ds) && forall p :: IsFile(t, p) ==> FileOpen(host, t, p) {
      forall p | p in t && Parent(p) in t
        ensures Usable(host, Shown(host, t[Parent(p)]).mode)
      {
        if IsDir(t, p) {
          assert p in dirs;
          var i :| 0 <= i < |dirs| && dirs[i] == p;
          assert MayMake(host, t, PathSet(ds[..i]), ds[i].path);
        } else {
          assert IsFile(t, p);
        }
        FileOpenParent(host, t, p);
      }
    }
  }

  lemma {:induction false} OpenFile(host: Host, t: FileTree, p: Path)
    requires ValidTree(t) && OpenTree(host, t) && p in t
    ensures FileOpen(host, t, p)
  {
    hide SafePath, Above;
    forall a | a in t && Above(a, p)
      ensures Enterable(host, Shown(host, t[a]))
    {
      OpenAbove(host, t, a, p);
    }
    ParentIsNearest(p);
  }

  lemma {:induction false} FileOpenParent(host: Host, t: FileTree, p: Path)
    requires ValidTree(t) && FileOpen(host, t, p) && p in t && Parent(p) in t
    ensures Usable(host, Shown(host, t[Parent(p)]).mode)
  {
    assert SafePath(Parent(p));
  }

  /** Unpacking what was built restores the tree, exactly when no directory is named like a
      file being written and every directory with an entry in it may be written by the
      receiver; files cannot get in each other's way. Otherwise something is missing. */
  lemma {:induction false} BuiltUnpacks(host: Host, hash: seq<byte> -> Digest, t: FileTree, listing: seq<Path>,
                                        prefix: seq<byte>)
    requires ValidTree(t) && Listing(t, listing) && TotalSize(t, SortedFiles(t, listing)) < U64_LIMIT
    ensures var m := Built(hash, t, listing);
            var files := PackedTree.Extents(m.entries);
            && PackedTree.Backed(files, Contents(t))
            && var r := Unpacked(host, hash, prefix + PackedTree.Region(files, Contents(t)), m, |prefix|, map[]);
               if NoTempDirs(t) && OpenTree(host, t) then r == Ok(Restored(host, t)) else !Complete(r, t)
  {
    hide SortedDirs, SortedFiles, LaidOut, FileEntries, TotalSize, OfKind, Built, Unpacked, Describes;
    hide PackedTree.Region, PackedTree.Extents, PackedTree.Backed, SafePath, OpenTree, DirsOpen, FileOpen, Restored;
    var m := Built(hash, t, listing);
    BuiltDescribes(hash, t, listing, prefix);
    BuiltParts(hash, t, listing);
    SortedCover(t, listing);
    var packed := prefix + PackedTree.Region(PackedTree.Extents(m.entries), Contents(t));
    UnpackExact(host, hash, t, packed, |prefix|, m);
    OpenExactly(host, t, SortedDirs(t, listing), OfKind(m.entries, Dir));
    FilesPlaceable(host, hash, t, SortedFiles(t, listing), OfKind(m.entries, File));
  }

  lemma {:induction false} FilesPlaceable(host: Host, hash: seq<byte> -> Digest, t: FileTree, ps: seq<Path>,
                                          fl: seq<Entry>)
    requires Ascending(ps) && |ps| == |fl| && (forall p :: p in ps <==> IsFile(t, p))
    requires forall i :: 0 <= i < |fl| ==> BuiltFrom(hash, t, ps[i], fl[i])
    ensures (forall i :: 0 <= i < |fl| ==> Placeable(host, t, {}, fl, i))
       <==> NoTempDirs(t) && forall p :: IsFile(t, p) ==> FileOpen(host, t, p)
  {
    hide FileOpen, Less, TempName;
    forall i | 0 <= i < |fl|
      ensures fl[i].path == ps[i] && IsFile(t, ps[i])
      ensures Placeable(host, t, {}, fl, i) <==> !IsDir(t, TempName(ps[i])) && FileOpen(host, t, ps[i])
    {
      assert BuiltFrom(hash, t, ps[i], fl[i]);
      assert forall k :: 0 <= k < |fl| ==> BuiltFrom(hash, t, ps[k], fl[k]);
      TempNamesComeLater(ps, fl, i);
    }
    if forall i :: 0 <= i < |fl| ==> Placeable(host, t, {}, fl, i) {
      forall p | IsFile(t, p)
        ensures !IsDir(t, TempName(p)) && FileOpen(host, t, p)
      {
        assert p in ps;
        var i :| 0 <= i < |ps| && ps[i] == p;
        assert Placeable(host, t, {}, fl, i);
      }
      assert NoTempDirs(t) by {
        assert forall p :: p in t && t[p].FileNode? ==> IsFile(t, p);
      }
    }
  }

  /** What the transfer assumes of a tree: it validates, its paths are UTF-8 and fit their
      length field, and the manifest stays within its caps. */
  ghost predicate Transferable(env: Env, t: FileTree, listing: seq<Path>) {
    && ValidTree(t) && Listing(t, listing)
    && TotalSize(t, SortedFiles(t, listing)) < U64_LIMIT
    && |listing| <= MANIFEST_MAX_ENTRIES
    && (forall p :: p in t ==> |p| <= U16_MAX && env.lossy(p) == p)
    && |ManifestBytes(Built(env.hash, t, listing))| <= MANIFEST_MAX_BYTES
  }

  lemma BuiltPathsInTree(env: Env, t: FileTree, listing: seq<Path>, i: nat)
    requires Transferable(env, t, listing) && i < |Built(env.hash, t, listing).entries|
    ensures Built(env.hash, t, listing).entries[i].path in t
  {
    hide FileEntries, TotalSize, Root, SafePath, SortedDirs, SortedFiles, ManifestBytes, ValidTree;
    var dirs, files := SortedDirs(t, listing), SortedFiles(t, listing);
    if i < |dirs| {
      assert dirs[i] in dirs;
    } else {
      FileEntryAt(env.hash, t, files, 0, i - |dirs|);
      assert files[i - |dirs|] in files;
    }
  }

  lemma BuiltWellFormed(env: Env, t: FileTree, listing: seq<Path>)
    requires Transferable(env, t, listing)
    ensures WellFormed(env, Built(env.hash, t, listing))
  {
    hide LaidOut, FileEntries, TotalSize, Root, SafePath, OfKind, SortedDirs, SortedFiles, ManifestBytes;
    BuiltParts(env.hash, t, listing);
    SortLengths(t, listing);
    var m := Built(env.hash, t, listing);
    forall i | 0 <= i < |m.entries|
      ensures m.entries[i].path in t
    {
      BuiltPathsInTree(env, t, listing, i);
    }
  }

  lemma {:induction false} InsertLength(p: Path, s: seq<Path>)
    ensures |Insert(p, s)| == |s| + 1
  {
    if s != [] {
      InsertLength(p, s[1..]);
    }
  }

  lemma {:induction false} SortLength(s: seq<Path>)
    ensures |SortPaths(s)| == |s|
  {
    if s != [] {
      SortLength(s[1..]);
      InsertLength(s[0], SortPaths(s[1..]));
    }
  }

  lemma {:induction false} SelectLengths(t: FileTree, listing: seq<Path>)
    ensures |Select(t, listing, true)| + |Select(t, listing, false)| <= |listing|
  {
    if listing != [] {
      SelectLengths(t, listing[1..]);
    }
  }

  lemma SortLengths(t: FileTree, listing: seq<Path>)
    requires Distinct(listing)
    ensures |SortedDirs(t, listing)| + |SortedFiles(t, listing)| <= |listing|
  {
    SortLength(Select(t, listing, true));
    SortLength(Select(t, listing, false));
    SelectLengths(t, listing);
  }

  /** Block `id` of an object the receiver accepts: where the code computes it to lie. */
  lemma BlockLies(totalLen: u64, blockSize: u32, id: nat)
    requires blockSize > 0 && id < DivCeil(totalLen, blockSize) < U32_LIMIT
    ensures var (start, end) := Blocks.BlockRange(id, blockSize, totalLen);
            && start == id * blockSize && start < end <= totalLen
            && (start, end) == Blocks.Extent(id, blockSize, totalLen)
  {
    Blocks.AcceptedBlockIsExact(Blocks.Offer(0, totalLen, blockSize, 1, DivCeil(totalLen, blockSize), false), id);
  }

  /** Every block read through the virtual stream, in whatever order and however often
      they arrive, and written at its offset into a file that held anything. */
  method SendBlocks(reader: PackedTree.PackedTreeReader, blockSize: u32, order: seq<nat>, blank: seq<byte>)
    returns (staging: seq<byte>)
    requires reader.Valid() && PackedTree.Backed(reader.files, reader.disk) && |blank| == reader.totalLen
    requires blockSize > 0 && DivCeil(reader.totalLen, blockSize) < U32_LIMIT
    requires Blocks.ValidOrder(order, DivCeil(reader.totalLen, blockSize))
    requires forall id: nat :: id < DivCeil(reader.totalLen, blockSize) ==> id in order
    ensures staging == reader.Stream() && |staging| == reader.totalLen
  {
    hide PackedTree.Region, PackedTree.Extents, PackedTree.Backed, PackedTree.EndToEnd;
    hide Blocks.BlockRange, DivCeil;
    PackedTree.RegionLength(reader.files, reader.disk, 0, reader.totalLen - |reader.prefix|);
    ghost var packed := reader.Stream();
    staging := blank;
    for i := 0 to |order|
      invariant Blocks.ValidOrder(order[..i], DivCeil(|packed|, blockSize))
      invariant staging == Blocks.Reassemble(blank, packed, blockSize, order[..i])
    {
      var id := order[i];
      BlockLies(reader.totalLen, blockSize, id);
      var (start, end) := Blocks.BlockRange(id, blockSize, reader.totalLen);
      var read := reader.ReadBlock(start, end - start);
      staging := Blocks.WriteAt(staging, start, read.value);
      assert order[..i + 1][..i] == order[..i];
    }
    assert order[..|order|] == order;
    Blocks.AnyOrderRebuilds(blank, packed, blockSize, order);
  }

  /** The digest loop of `spray_fec_object`: the object streamed back through the same
      reader, a block at a time, gives the digest of the whole. */
  method DigestObject(hash: seq<byte> -> Digest, reader: PackedTree.PackedTreeReader, chunk: u32)
    returns (digest: Digest)
    requires reader.Valid() && PackedTree.Backed(reader.files, reader.disk) && chunk > 0
    ensures digest == hash(reader.Stream())
  {
    hide PackedTree.Region, PackedTree.Extents, PackedTree.Backed, PackedTree.EndToEnd;
    PackedTree.RegionLength(reader.files, reader.disk, 0, reader.totalLen - |reader.prefix|);
    ghost var packed := reader.Stream();
    var hashed: seq<byte> := [];
    var pos: nat := 0;
    while pos < reader.totalLen
      invariant pos <= reader.totalLen && hashed == packed[..pos]
      decreases reader.totalLen - pos
    {
      var want := Min(chunk, reader.totalLen - pos);
      var read := reader.ReadBlock(pos, want);
      hashed := hashed + read.value;
      pos := pos + want;
    }
    assert packed[..|packed|] == packed;
    digest := hash(hashed);
  }

  /** What a receiver needs of the offer for the packed object. */
  predicate Offerable(total: nat, blockSize: u32, order: seq<nat>) {
    && blockSize > 0 && total < U64_LIMIT && DivCeil(total, blockSize) < U32_LIMIT
    && Blocks.ValidOrder(order, DivCeil(total, blockSize))
    && forall id: nat :: id < DivCeil(total, blockSize) ==> id in order
  }

  function PackedLength(env: Env, t: FileTree, listing: seq<Path>): nat
    requires Transferable(env, t, listing)
  {
    |ManifestPrefix(Built(env.hash, t, listing))| + TotalSize(t, SortedFiles(t, listing))
  }

  /** The receiver's side on exactly what the sender packed. */
  lemma {:induction false} PackedIsReceived(host: Host, env: Env, t: FileTree, listing: seq<Path>)
    requires Transferable(env, t, listing)
    ensures var m := Built(env.hash, t, listing);
            var files := PackedTree.Extents(m.entries);
            && PackedTree.Backed(files, Contents(t))
            && var packed := ManifestPrefix(m) + PackedTree.Region(files, Contents(t));
               var r := Received(host, env, packed, |packed|);
               if NoTempDirs(t) && OpenTree(host, t) then r == Ok(Restored(host, t)) else !Complete(r, t)
  {
    hide SortedDirs, SortedFiles, FileEntries, TotalSize, OfKind, Unpacked, SafePath, LaidOut, Built;
    hide PackedTree.Region, PackedTree.Extents, PackedTree.Backed, PackedTree.EndToEnd;
    hide ManifestBytes, WellFormed, ManifestPrefix, NoTempDirs, ReadManifestPrefix, OpenTree, Restored;
    var m := Built(env.hash, t, listing);
    BuiltWellFormed(env, t, listing);
    BuiltParts(env.hash, t, listing);
    BuiltUnpacks(host, env.hash, t, listing, ManifestPrefix(m));
    var files := PackedTree.Extents(m.entries);
    PackedTree.ExtentsEndToEnd(m.entries, 0, m.totalLen);
    PackedTree.RegionLength(files, Contents(t), 0, m.totalLen);
    PrefixReadsBack(env, m, PackedTree.Region(files, Contents(t)));
  }

  /** `upload_tree` to `recv_put_tree_fec`, with the symbol layer left out: the object's
      blocks are read through the virtual stream, arrive in any order with any
      duplicates, and are written at their offsets into a staging file that held
      anything; the closing digest is checked; then the manifest is recovered and the
      tree unpacked into an empty destination. The tree comes out restored exactly when no
      directory is named like a file's temporary name and every directory with an entry
      in it may be written by the receiver; otherwise something of it is missing. */
  method TransferTree(host: Host, env: Env, t: FileTree, listing: seq<Path>, blockSize: u32, order: seq<nat>,
                      blank: seq<byte>)
    returns (r: Result<FileTree, UnpackError>)
    requires Transferable(env, t, listing) && Offerable(PackedLength(env, t, listing), blockSize, order)
    requires |blank| == PackedLength(env, t, listing)
    ensures if NoTempDirs(t) && OpenTree(host, t) then r == Ok(Restored(host, t)) else !Complete(r, t)
    ensures r == Ok(t) <==> NoTempDirs(t) && OpenTree(host, t) && ModesKept(host, t)
  {
    hide SortedDirs, SortedFiles, FileEntries, TotalSize, OfKind, Received, SafePath, LaidOut;
    hide PackedTree.Region, PackedTree.Extents, PackedTree.Backed, PackedTree.EndToEnd;
    hide ManifestBytes, ManifestPrefix, NoTempDirs, OpenTree, Restored;
    PackedIsReceived(host, env, t, listing);
    RestoredIsSame(host, t);
    var built := BuildManifest(env.hash, t, listing);
    var m := built.value;
    BuiltParts(env.hash, t, listing);
    var reader := new PackedTree.PackedTreeReader(Contents(t), m, ManifestPrefix(m));
    var staging := SendBlocks(reader, blockSize, order, blank);
    assert staging == ManifestPrefix(m) + PackedTree.Region(PackedTree.Extents(m.entries), Contents(t));
    var digest := DigestObject(env.hash, reader, blockSize);
    if env.hash(staging) != digest {
      return Err(ChecksumMismatch);
    }
    r := ReceiveTree(host, env, staging, reader.totalLen);
  }
}
