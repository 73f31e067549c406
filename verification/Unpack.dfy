/** Receiving a packed tree: recovering the manifest from the front of the packed file
    and splitting the rest into files, each through a temporary name. */
module Unpack {
  import opened Bytes
  import opened Paths
  import opened Merkle
  import opened Manifest

  /** A directory tree below its root. */
  datatype Node = DirNode(mode: u32) | FileNode(mode: u32, bytes: seq<byte>)

  type FileTree = map<Path, Node>

  datatype UnpackError =
    NotADirectory | IsADirectory | UnexpectedEof | ManifestTooLong | BadManifest(error: ManifestError)
    | LengthDisagrees | EscapesRoot | PermissionDenied | ChecksumMismatch

  // ---- The front of the packed file ---------------------------------------------------------

  /** `manifest_prefix`. */
  function ManifestPrefix(m: Manifest): seq<byte> {
    LE(|ManifestBytes(m)|, 8) + ManifestBytes(m)
  }

  /** `read_manifest_prefix`: the manifest and where the file region begins. */
  function ReadManifestPrefix(env: Env, packed: seq<byte>): Result<(Manifest, nat), UnpackError> {
    if |packed| < 8 then Err(UnexpectedEof)
    else
      var mlen := FromLE(packed[..8]);
      if mlen > MANIFEST_MAX_BYTES then Err(ManifestTooLong)
      else if |packed| < 8 + mlen then Err(UnexpectedEof)
      else
        match Decoded(env, packed[8..8 + mlen])
        case Err(e) => Err(BadManifest(e))
        case Ok(m) => Ok((m, 8 + mlen))
  }

  lemma PrefixReadsBack(env: Env, m: Manifest, region: seq<byte>)
    requires WellFormed(env, m) && |ManifestBytes(m)| <= MANIFEST_MAX_BYTES
    ensures ReadManifestPrefix(env, ManifestPrefix(m) + region) == Ok((m, |ManifestPrefix(m)|))
  {
    hide ManifestBytes, WellFormed, LE, FromLE;
    Pow256Values();
    var b := ManifestBytes(m);
    var packed := ManifestPrefix(m) + region;
    assert packed[..8] == LE(|b|, 8) && packed[8..8 + |b|] == b;
    FromLEofLE(|b|, 8);
    DecodeOfEncode(env, m, []);
    assert b + [] == b;
  }

  // ---- File system steps ----------------------------------------------------------------------

  /** Who unpacks: a privileged process or one bound by the modes of what it makes, and
      the modes new directories and files get before any is applied. */
  datatype Host = Host(privileged: bool, dirMode: u32, fileMode: u32)

  const OWNER_WRITE: u32 := 0x80
  const OWNER_SEARCH: u32 := 0x40

  predicate Has(mode: u32, bit: u32)
    requires bit > 0
  {
    mode / bit % 2 == 1
  }

  /** Entries can be made in a directory of this mode. */
  predicate Usable(host: Host, mode: u32) {
    host.privileged || (Has(mode, OWNER_WRITE) && Has(mode, OWNER_SEARCH))
  }

  predicate Enterable(host: Host, n: Node) {
    n.DirNode? ==> host.privileged || Has(n.mode, OWNER_SEARCH)
  }

  /** Every directory on the way to `p` can be searched. */
  predicate Reachable(host: Host, fs: FileTree, p: Path) {
    forall a :: a in fs && Above(a, p) ==> Enterable(host, fs[a])
  }

  /** An entry `p` can be made: in the root, or in a directory that is there or about to be. */
  predicate MayAdd(host: Host, fs: FileTree, p: Path) {
    Parent(p) == [] || Usable(host, if Parent(p) in fs then fs[Parent(p)].mode else host.dirMode)
  }

  /** `p` and every directory on the way to it. */
  function Lineage(p: Path): set<Path> {
    set i | 0 <= i <= |p| && (i == |p| || p[i] == SLASH) :: p[..i]
  }

  lemma LineageMeans(p: Path, q: Path)
    ensures q in Lineage(p) <==> q == p || Above(q, p)
  {
    if q == p {
      assert p[..|p|] == p;
    }
    if Above(q, p) {
      assert q == p[..|q|];
    }
  }

  /** `create_dir_all`. */
  function CreateDirAll(host: Host, fs: FileTree, p: Path): Result<FileTree, UnpackError> {
    if exists q :: q in Lineage(p) && q in fs && fs[q].FileNode? then Err(NotADirectory)
    else if !Reachable(host, fs, p) || exists q :: q in Lineage(p) && q !in fs && !MayAdd(host, fs, q) then
      Err(PermissionDenied)
    else Ok(map q | q in fs.Keys + Lineage(p) :: if q in fs then fs[q] else DirNode(host.dirMode))
  }

  /** `apply_mode`: a mode of zero leaves the node as it was made. */
  function ApplyMode(fs: FileTree, p: Path, mode: u32): FileTree
    requires p in fs
  {
    if mode == 0 then fs
    else fs[p := if fs[p].DirNode? then DirNode(mode) else FileNode(mode, fs[p].bytes)]
  }

  /** `File::create`: an existing file is truncated and keeps its mode. */
  function CreateFile(host: Host, fs: FileTree, p: Path): Result<FileTree, UnpackError> {
    if p in fs && fs[p].DirNode? then Err(IsADirectory)
    else if !Reachable(host, fs, p) then Err(PermissionDenied)
    else if p in fs then
      if host.privileged || Has(fs[p].mode, OWNER_WRITE) then Ok(fs[p := FileNode(fs[p].mode, [])])
      else Err(PermissionDenied)
    else if MayAdd(host, fs, p) then Ok(fs[p := FileNode(host.fileMode, [])])
    else Err(PermissionDenied)
  }

  /** `rename` of a file within its directory. */
  function Rename(host: Host, fs: FileTree, from: Path, to: Path): Result<FileTree, UnpackError>
    requires from in fs
  {
    if to in fs && fs[to].DirNode? then Err(IsADirectory)
    else if !Reachable(host, fs, from) || !MayAdd(host, fs, from) then Err(PermissionDenied)
    else Ok((fs - {from})[to := fs[from]])
  }

  const UNPACK_SUFFIX: seq<byte> := [0x2E, 0x61, 0x66, 0x74, 0x70, 0x2D, 0x75, 0x6E, 0x70, 0x61, 0x63, 0x6B]

  /** The name a file is written under before it is renamed into place. */
  function TempName(p: Path): (t: Path)
    ensures p < t
  {
    p + UNPACK_SUFFIX
  }

  /** The directory `p` lies in, or nothing for an entry of the root. */
  function Parent(p: Path): (d: Path)
    ensures d <= p
    ensures d != [] ==> Above(d, p)
  {
    if p == [] then []
    else if p[|p| - 1] == SLASH then p[..|p| - 1]
    else Parent(p[..|p| - 1])
  }

  // ---- unpack_tree --------------------------------------------------------------------------------

  function OfKind(es: seq<Entry>, k: EntryKind): (r: seq<Entry>)
    ensures forall i :: 0 <= i < |r| ==> r[i].kind == k
  {
    if es == [] then [] else (if es[0].kind == k then [es[0]] else []) + OfKind(es[1..], k)
  }

  lemma {:induction false} OfKindFrom(es: seq<Entry>, k: EntryKind, i: nat)
    requires i < |OfKind(es, k)|
    ensures OfKind(es, k)[i] in es
  {
    var skip := if es[0].kind == k then 1 else 0;
    if i >= skip {
      OfKindFrom(es[1..], k, i - skip);
    }
  }

  function MakeDir(host: Host, fs: FileTree, e: Entry): Result<FileTree, UnpackError> {
    if !SafePath(e.path) then Err(EscapesRoot)
    else
      var made :- CreateDirAll(host, fs, e.path);
      LineageMeans(e.path, e.path);
      Ok(ApplyMode(made, e.path, e.mode))
  }

  function MakeDirs(host: Host, fs: FileTree, es: seq<Entry>): Result<FileTree, UnpackError>
    decreases |es|
  {
    if es == [] then Ok(fs)
    else
      var next :- MakeDir(host, fs, es[0]);
      MakeDirs(host, next, es[1..])
  }

  /** `create_dir_all` of the parent, when there is one. */
  function MakeParent(host: Host, fs: FileTree, p: Path): Result<FileTree, UnpackError> {
    if Parent(p) == [] then Ok(fs) else CreateDirAll(host, fs, Parent(p))
  }

  /** The packed bytes an entry stands for, if they are there. */
  function Slice(packed: seq<byte>, start: nat, size: nat): Result<seq<byte>, UnpackError> {
    if size == 0 then Ok([])
    else if start + size > |packed| then Err(UnexpectedEof)
    else Ok(packed[start..start + size])
  }

  lemma SliceMore(packed: seq<byte>, start: nat, n: nat, k: nat)
    requires k > 0 && start + n + k <= |packed|
    ensures Slice(packed, start, n).Ok?
    ensures Slice(packed, start, n + k)
         == Ok(Slice(packed, start, n).value + packed[start + n..start + n + k])
  {
    assert packed[start..start + n] + packed[start + n..start + n + k] == packed[start..start + n + k];
  }

  lemma SliceNone(packed: seq<byte>, start: nat)
    ensures Slice(packed, start, 0) == Ok([])
  {
  }

  lemma SliceEnds(packed: seq<byte>, start: nat, size: nat, n: nat)
    requires n <= size && start + n > |packed| && n > 0
    ensures Slice(packed, start, size) == Err(UnexpectedEof)
  {
  }

  /** Writing the content under the temporary name, checking it, renaming it. */
  function StageAndRename(host: Host, hash: seq<byte> -> Digest, packed: seq<byte>, base: nat, fs: FileTree,
                          e: Entry): Result<FileTree, UnpackError>
  {
    var tmp := TempName(e.path);
    var created :- CreateFile(host, fs, tmp);
    var bytes :- Slice(packed, base + e.offset, e.size);
    if hash(bytes) != e.sha256 then Err(ChecksumMismatch)
    else
      var renamed :- Rename(host, created[tmp := FileNode(created[tmp].mode, bytes)], tmp, e.path);
      Ok(ApplyMode(renamed, e.path, e.mode))
  }

  function PlaceFile(host: Host, hash: seq<byte> -> Digest, packed: seq<byte>, base: nat, fs: FileTree, e: Entry):
    Result<FileTree, UnpackError>
  {
    if !SafePath(e.path) then Err(EscapesRoot)
    else
      var made :- MakeParent(host, fs, e.path);
      StageAndRename(host, hash, packed, base, made, e)
  }

  function PlaceFiles(host: Host, hash: seq<byte> -> Digest, packed: seq<byte>, base: nat, fs: FileTree,
                      es: seq<Entry>): Result<FileTree, UnpackError>
    decreases |es|
  {
    if es == [] then Ok(fs)
    else
      var next :- PlaceFile(host, hash, packed, base, fs, es[0]);
      PlaceFiles(host, hash, packed, base, next, es[1..])
  }

  /** The destination `unpack_tree` leaves when it succeeds, from one holding `fs`. */
  function Unpacked(host: Host, hash: seq<byte> -> Digest, packed: seq<byte>, m: Manifest, base: nat, fs: FileTree):
    Result<FileTree, UnpackError>
  {
    var dirs :- MakeDirs(host, fs, OfKind(m.entries, Dir));
    PlaceFiles(host, hash, packed, base, dirs, OfKind(m.entries, File))
  }

  // ---- What was checked -----------------------------------------------------------------------------

  predicate InBounds(packed: seq<byte>, base: nat, e: Entry) {
    e.size == 0 || base + e.offset + e.size <= |packed|
  }

  /** The bytes at the entry's place are there and have the digest it states. */
  predicate Vouched(hash: seq<byte> -> Digest, packed: seq<byte>, base: nat, e: Entry) {
    && InBounds(packed, base, e)
    && e.sha256 == hash(if e.size == 0 then [] else packed[base + e.offset..base + e.offset + e.size])
  }

  /** A file is refused over its digest exactly when everything before the comparison goes
      through and the bytes at its place do not have the digest the entry states. */
  lemma RefusedOverDigest(host: Host, hash: seq<byte> -> Digest, packed: seq<byte>, base: nat, fs: FileTree, e: Entry)
    ensures PlaceFile(host, hash, packed, base, fs, e) == Err(ChecksumMismatch) <==>
              && SafePath(e.path) && MakeParent(host, fs, e.path).Ok?
              && CreateFile(host, MakeParent(host, fs, e.path).value, TempName(e.path)).Ok?
              && InBounds(packed, base, e) && !Vouched(hash, packed, base, e)
  {
    hide SafePath, Reachable, MayAdd, Lineage;
  }

  lemma PlacedIsVouched(host: Host, hash: seq<byte> -> Digest, packed: seq<byte>, base: nat, fs: FileTree, e: Entry)
    ensures PlaceFile(host, hash, packed, base, fs, e).Ok? ==> SafePath(e.path) && Vouched(hash, packed, base, e)
  {
    hide SafePath, CreateFile, MakeParent, Rename, ApplyMode;
  }

  lemma {:induction false} PlacedAreVouched(host: Host, hash: seq<byte> -> Digest, packed: seq<byte>, base: nat,
                                            fs: FileTree, es: seq<Entry>)
    ensures var r := PlaceFiles(host, hash, packed, base, fs, es);
            && (r.Ok? ==> forall e :: e in es ==> SafePath(e.path) && Vouched(hash, packed, base, e))
            && (r == Err(ChecksumMismatch) ==> exists e :: e in es && !Vouched(hash, packed, base, e))
    decreases |es|
  {
    hide SafePath, PlaceFile, Vouched;
    if es != [] {
      var first := PlaceFile(host, hash, packed, base, fs, es[0]);
      PlacedIsVouched(host, hash, packed, base, fs, es[0]);
      RefusedOverDigest(host, hash, packed, base, fs, es[0]);
      if first.Ok? {
        PlacedAreVouched(host, hash, packed, base, first.value, es[1..]);
      }
      assert es[0] in es;
    }
  }

  /** Making directories reads no content. */
  lemma DirsReadNothing(host: Host, fs: FileTree, e: Entry)
    ensures MakeDir(host, fs, e) != Err(ChecksumMismatch)
    ensures MakeParent(host, fs, e.path) != Err(ChecksumMismatch)
    ensures MakeDir(host, fs, e).Ok? ==> SafePath(e.path)
  {
    hide SafePath, Reachable, MayAdd, Lineage;
  }

  lemma CreatedOnly(host: Host, fs: FileTree, p: Path)
    ensures CreateFile(host, fs, p) != Err(ChecksumMismatch)
    ensures var r := CreateFile(host, fs, p);
            r.Ok? ==> p in r.value && r.value[p].FileNode? && r.value[p].bytes == [] && r.value - {p} == fs - {p}
  {
    hide Reachable, MayAdd;
  }

  lemma RenameReadsNothing(host: Host, fs: FileTree, from: Path, to: Path)
    requires from in fs
    ensures Rename(host, fs, from, to) != Err(ChecksumMismatch)
    ensures Rename(host, fs, from, to).Ok? ==> to in Rename(host, fs, from, to).value
  {
    hide Reachable, MayAdd;
  }

  lemma SliceIs(packed: seq<byte>, base: nat, e: Entry)
    ensures Slice(packed, base + e.offset, e.size) ==
            if InBounds(packed, base, e) then
              Ok(if e.size == 0 then [] else packed[base + e.offset..base + e.offset + e.size])
            else Err(UnexpectedEof)
  {
  }

  lemma {:induction false} MadeAreSafe(host: Host, fs: FileTree, es: seq<Entry>)
    ensures MakeDirs(host, fs, es).Ok? ==> forall e :: e in es ==> SafePath(e.path)
    ensures MakeDirs(host, fs, es) != Err(ChecksumMismatch)
    decreases |es|
  {
    hide SafePath, MakeDir;
    if es != [] {
      DirsReadNothing(host, fs, es[0]);
      if MakeDir(host, fs, es[0]).Ok? {
        MadeAreSafe(host, MakeDir(host, fs, es[0]).value, es[1..]);
      }
    }
  }

  lemma {:induction false} OfKindHas(es: seq<Entry>, k: EntryKind, e: Entry)
    requires e in es && e.kind == k
    ensures e in OfKind(es, k)
  {
    if e != es[0] {
      OfKindHas(es[1..], k, e);
    }
  }

  /** Whatever the packed bytes, the manifest and the destination: a tree is unpacked only
      when every path validates and the bytes at every file's place have the digest its
      entry states; and it fails over a digest only when those of some file do not. */
  lemma {:induction false} UnpackedIsVouched(host: Host, hash: seq<byte> -> Digest, packed: seq<byte>, m: Manifest,
                                             base: nat, fs: FileTree)
    ensures var r := Unpacked(host, hash, packed, m, base, fs);
            && (r.Ok? ==> forall e :: e in m.entries ==>
                            SafePath(e.path) && (e.kind == File ==> Vouched(hash, packed, base, e)))
            && (r == Err(ChecksumMismatch) ==>
                  exists e :: e in m.entries && e.kind == File && !Vouched(hash, packed, base, e))
  {
    hide SafePath, Vouched, MakeDirs, PlaceFiles, OfKind;
    var ds, fl := OfKind(m.entries, Dir), OfKind(m.entries, File);
    var dirs := MakeDirs(host, fs, ds);
    MadeAreSafe(host, fs, ds);
    if dirs.Ok? {
      PlacedAreVouched(host, hash, packed, base, dirs.value, fl);
    }
    forall e | e in m.entries
      ensures e in ds || (e in fl && e.kind == File)
    {
      OfKindHas(m.entries, e.kind, e);
    }
    forall i | 0 <= i < |fl|
      ensures fl[i] in m.entries
    {
      OfKindFrom(m.entries, File, i);
    }
  }

  // ---- The code -------------------------------------------------------------------------------------

  const COPY_BUFFER := 0x10_0000

  /** The destination directory. */
  class Destination {
    const host: Host
    var fs: FileTree

    constructor (host: Host)
      ensures this.host == host && fs == map[]
    {
      this.host := host;
      fs := map[];
    }

    method UnpackDir(e: Entry) returns (failed: Option<UnpackError>)
      modifies this
      ensures match MakeDir(host, old(fs), e)
              case Ok(next) => failed.None? && fs == next
              case Err(err) => failed == Some(err)
    {
      if !SafePath(e.path) {
        return Some(EscapesRoot);
      }
      var made := CreateDirAll(host, fs, e.path);
      if made.Err? {
        return Some(made.error);
      }
      LineageMeans(e.path, e.path);
      fs := ApplyMode(made.value, e.path, e.mode);
      failed := None;
    }

    /** The copying loop: a buffer at a time from the packed file into `tmp`. */
    method CopyOut(packed: seq<byte>, start: nat, size: nat, tmp: Path) returns (r: Result<seq<byte>, UnpackError>)
      requires tmp in fs && fs[tmp].FileNode? && fs[tmp].bytes == []
      modifies this
      ensures r == Slice(packed, start, size)
      ensures r.Ok? ==> fs == old(fs)[tmp := FileNode(old(fs)[tmp].mode, r.value)]
    {
      hide Slice;
      SliceNone(packed, start);
      var remaining := size;
      var written: seq<byte> := [];
      while remaining > 0
        invariant 0 <= remaining <= size
        invariant Slice(packed, start, size - remaining) == Ok(written)
        invariant fs == old(fs)[tmp := FileNode(old(fs)[tmp].mode, written)]
      {
        var want := Min(remaining, COPY_BUFFER);
        var pos := start + (size - remaining);
        if pos + want > |packed| {
          SliceEnds(packed, start, size, size - remaining + want);
          return Err(UnexpectedEof);
        }
        SliceMore(packed, start, size - remaining, want);
        written := written + packed[pos..pos + want];
        fs := fs[tmp := FileNode(fs[tmp].mode, written)];
        remaining := remaining - want;
      }
      r := Ok(written);
    }

    /** One file: copied out and hashed, then renamed. */
    method PlaceContent(hash: seq<byte> -> Digest, packed: seq<byte>, base: nat, e: Entry)
      returns (failed: Option<UnpackError>)
      modifies this
      ensures match StageAndRename(host, hash, packed, base, old(fs), e)
              case Ok(next) => failed.None? && fs == next
              case Err(err) => failed == Some(err)
      ensures failed.None? ==> Vouched(hash, packed, base, e)
      ensures failed == Some(ChecksumMismatch) ==>
                InBounds(packed, base, e) && !Vouched(hash, packed, base, e) && fs == old(fs) - {TempName(e.path)}
    {
      hide Rename, ApplyMode, Slice;
      var tmp := TempName(e.path);
      CreatedOnly(host, fs, tmp);
      SliceIs(packed, base, e);
      var created := CreateFile(host, fs, tmp);
      if created.Err? {
        return Some(created.error);
      }
      hide CreateFile;
      fs := created.value;
      var copied := CopyOut(packed, base + e.offset, e.size, tmp);
      if copied.Err? {
        return Some(copied.error);
      }
      if hash(copied.value) != e.sha256 {
        fs := fs - {tmp};
        return Some(ChecksumMismatch);
      }
      RenameReadsNothing(host, fs, tmp, e.path);
      var renamed := Rename(host, fs, tmp, e.path);
      if renamed.Err? {
        return Some(renamed.error);
      }
      fs := ApplyMode(renamed.value, e.path, e.mode);
      failed := None;
    }

    method UnpackFile(hash: seq<byte> -> Digest, packed: seq<byte>, base: nat, e: Entry)
      returns (failed: Option<UnpackError>)
      modifies this
      ensures match PlaceFile(host, hash, packed, base, old(fs), e)
              case Ok(next) => failed.None? && fs == next
              case Err(err) => failed == Some(err)
      ensures failed.None? ==> SafePath(e.path) && Vouched(hash, packed, base, e)
      ensures failed == Some(ChecksumMismatch) ==>
                !Vouched(hash, packed, base, e) && fs == MakeParent(host, old(fs), e.path).value - {TempName(e.path)}
    {
      hide SafePath, StageAndRename, MakeParent, Vouched;
      if !SafePath(e.path) {
        return Some(EscapesRoot);
      }
      var made := MakeParent(host, fs, e.path);
      DirsReadNothing(host, fs, e);
      if made.Err? {
        return Some(made.error);
      }
      fs := made.value;
      failed := PlaceContent(hash, packed, base, e);
    }

    method UnpackTree(hash: seq<byte> -> Digest, packed: seq<byte>, m: Manifest, base: nat)
      returns (r: Result<nat, UnpackError>)
      modifies this
      ensures match Unpacked(host, hash, packed, m, base, old(fs))
              case Ok(t) => r == Ok(|OfKind(m.entries, File)|) && fs == t
              case Err(e) => r == Err(e)
      ensures r.Ok? ==> forall e :: e in m.entries && e.kind == File ==> Vouched(hash, packed, base, e)
      ensures r == Err(ChecksumMismatch) ==>
                exists e :: e in m.entries && e.kind == File && !Vouched(hash, packed, base, e)
                            && TempName(e.path) !in fs
    {
      hide MakeDir, PlaceFile, Vouched, SafePath, MakeParent, TempName, OfKind;
      UnpackedIsVouched(host, hash, packed, m, base, fs);
      MadeAreSafe(host, fs, OfKind(m.entries, Dir));
      var dirs := OfKind(m.entries, Dir);
      for i := 0 to |dirs|
        invariant MakeDirs(host, old(fs), dirs) == MakeDirs(host, fs, dirs[i..])
      {
        var failed := UnpackDir(dirs[i]);
        if failed.Some? {
          return Err(failed.value);
        }
      }
      ghost var afterDirs := fs;
      var files := OfKind(m.entries, File);
      var filesWritten := 0;
      for i := 0 to |files|
        invariant filesWritten == i
        invariant PlaceFiles(host, hash, packed, base, afterDirs, files)
               == PlaceFiles(host, hash, packed, base, fs, files[i..])
      {
        var failed := UnpackFile(hash, packed, base, files[i]);
        if failed.Some? {
          OfKindFrom(m.entries, File, i);
          assert files[i] in m.entries && files[i].kind == File;
          return Err(failed.value);
        }
        filesWritten := filesWritten + 1;
      }
      r := Ok(filesWritten);
    }
  }

  /** The tree made in an empty destination from a staged object of the offered length. */
  function Received(host: Host, env: Env, staged: seq<byte>, offered: nat): Result<FileTree, UnpackError> {
    var (m, base) :- ReadManifestPrefix(env, staged);
    if base + m.totalLen != offered then Err(LengthDisagrees)
    else Unpacked(host, env.hash, staged, m, base, map[])
  }

  /** What was vouched for when a received tree stands: the front of the object is a manifest
      within the cap that the decoder accepted, the object has the offered length, and the
      bytes at every file's place have the digest the manifest states. */
  predicate FrontVouches(env: Env, staged: seq<byte>, offered: nat) {
    && |staged| >= 8
    && var mlen := FromLE(staged[..8]);
    && mlen <= 0x400_0000 && 8 + mlen <= |staged|
    && var decoded := Decoded(env, staged[8..8 + mlen]);
    && decoded.Ok? && 8 + mlen + decoded.value.totalLen == offered
    && forall e :: e in decoded.value.entries ==>
                     SafePath(e.path) && (e.kind == File ==> Vouched(env.hash, staged, 8 + mlen, e))
  }

  lemma ReceivedIsVouched(host: Host, env: Env, staged: seq<byte>, offered: nat)
    ensures Received(host, env, staged, offered).Ok? ==> FrontVouches(env, staged, offered)
  {
    hide FromLE, SafePath, Vouched, Unpacked;
    var parsed := ReadManifestPrefix(env, staged);
    if parsed.Ok? {
      UnpackedIsVouched(host, env.hash, staged, parsed.value.0, parsed.value.1, map[]);
    }
  }

  /** The end of `recv_put_tree_fec`, once the object has been staged. */
  method ReceiveTree(host: Host, env: Env, staged: seq<byte>, offered: nat)
    returns (r: Result<FileTree, UnpackError>)
    ensures r == Received(host, env, staged, offered)
    ensures r.Ok? ==> FrontVouches(env, staged, offered)
  {
    hide ReadManifestPrefix, Unpacked, FrontVouches;
    ReceivedIsVouched(host, env, staged, offered);
    var parsed := ReadManifestPrefix(env, staged);
    if parsed.Err? {
      return Err(parsed.error);
    }
    var (m, base) := parsed.value;
    if base + m.totalLen != offered {
      return Err(LengthDisagrees);
    }
    var destination := new Destination(host);
    var unpacked := destination.UnpackTree(env.hash, staged, m, base);
    r := if unpacked.Ok? then Ok(destination.fs) else Err(unpacked.error);
  }
}
