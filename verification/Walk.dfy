/** The directory walk in front of packing: every directory below the root is read once,
    links are counted and not followed, and nothing reached is missed. */
module Walk {
  import opened Bytes
  import opened Paths
  import opened Merkle
  import opened Manifest
  import opened Unpack
  import opened UnpackProof
  import opened TreeTransfer

  /** What a name on disk stands for: something packed, a link, or a socket, pipe or
      device. */
  datatype Item = Packed(node: Node) | Symlink | Special

  type Disk = map<Path, Item>

  predicate IsPacked(disk: Disk, p: Path) {
    p in disk && disk[p].Packed?
  }

  predicate IsFolder(disk: Disk, p: Path) {
    p == [] || (IsPacked(disk, p) && disk[p].node.DirNode?)
  }

  /** Everything lies in the root or in a directory, never behind a link. */
  predicate Rooted(disk: Disk) {
    forall p :: p in disk ==> p != [] && IsFolder(disk, Parent(p))
  }

  /** `read_dir` names what lies in a directory, each once, in an order of its own. */
  ghost predicate Reads(disk: Disk, readDir: Path -> seq<Path>) {
    forall d :: IsFolder(disk, d) ==>
      Distinct(readDir(d)) && forall p :: p in readDir(d) <==> p in disk && Parent(p) == d
  }

  function Tree(disk: Disk): FileTree {
    map p | p in disk && disk[p].Packed? :: disk[p].node
  }

  function Links(disk: Disk): set<Path> {
    set p | p in disk && disk[p].Symlink?
  }

  function Folders(disk: Disk): set<Path> {
    {[]} + set p | p in disk && IsFolder(disk, p)
  }

  // ---- The invariant ---------------------------------------------------------------------------

  /** With the names `seen` met and the directories `read`: what is packed is listed, and a
      directory met is read or waits on the stack, but not both. */
  ghost predicate Walked(disk: Disk, seen: set<Path>, read: set<Path>, stack: seq<Path>, listing: seq<Path>,
                         skipped: nat)
  {
    && seen <= disk.Keys && (forall p :: p in seen ==> SafePath(p))
    && Distinct(listing) && (forall p :: p in listing <==> p in seen && IsPacked(disk, p))
    && Distinct(stack) && (forall d :: d in stack ==> d !in read)
    && (forall d :: d in stack || d in read <==> d == [] || (d in seen && IsFolder(disk, d)))
    && skipped == |seen * Links(disk)|
  }

  function Inside(disk: Disk, read: set<Path>): set<Path> {
    set p | p in disk && Parent(p) in read
  }

  /** What has been met when `i` of the names of `dir` have. */
  ghost function Partly(disk: Disk, readDir: Path -> seq<Path>, read: set<Path>, dir: Path, i: nat): set<Path>
    requires i <= |readDir(dir)|
  {
    Inside(disk, read) + set p | p in readDir(dir)[..i]
  }

  lemma NextName(disk: Disk, readDir: Path -> seq<Path>, read: set<Path>, dir: Path, i: nat)
    requires Rooted(disk) && Reads(disk, readDir) && IsFolder(disk, dir) && dir !in read && i < |readDir(dir)|
    ensures var p := readDir(dir)[i];
            && p in disk && p != [] && p !in Partly(disk, readDir, read, dir, i)
            && Partly(disk, readDir, read, dir, i + 1) == Partly(disk, readDir, read, dir, i) + {p}
  {
    hide IsFolder;
    var names := readDir(dir);
    assert names[i] in names;
    assert names[..i + 1] == names[..i] + [names[i]];
  }

  lemma FolderRead(disk: Disk, readDir: Path -> seq<Path>, read: set<Path>, dir: Path)
    requires Reads(disk, readDir) && IsFolder(disk, dir)
    ensures Partly(disk, readDir, read, dir, 0) == Inside(disk, read)
    ensures Partly(disk, readDir, read, dir, |readDir(dir)|) == Inside(disk, read + {dir})
  {
    var names := readDir(dir);
    assert names[..|names|] == names;
    forall p
      ensures p in Partly(disk, readDir, read, dir, |names|) <==> p in Inside(disk, read + {dir})
    {
      assert p in names <==> p in disk && Parent(p) == dir;
    }
  }

  lemma WalkStarts(disk: Disk)
    requires Rooted(disk)
    ensures Inside(disk, {}) == {} && Walked(disk, {}, {}, [[]], [], 0)
  {
    assert {} * Links(disk) == {};
  }

  /** One name met: listed, put on the stack, counted, or passed over. */
  lemma Meet(disk: Disk, seen: set<Path>, read: set<Path>, stack: seq<Path>, listing: seq<Path>, skipped: nat, p: Path)
    requires Walked(disk, seen, read, stack, listing, skipped) && p in disk && p != [] && p !in seen && SafePath(p)
    ensures Walked(disk, seen + {p}, read, if IsFolder(disk, p) then stack + [p] else stack,
                   if IsPacked(disk, p) then listing + [p] else listing,
                   if disk[p].Symlink? then skipped + 1 else skipped)
  {
    hide SafePath;
    assert p !in listing && p !in stack && p !in read;
    var before, after := seen * Links(disk), (seen + {p}) * Links(disk);
    assert after == if disk[p].Symlink? then before + {p} else before;
  }

  /** The next directory is taken off the stack. */
  lemma Take(disk: Disk, seen: set<Path>, read: set<Path>, stack: seq<Path>, listing: seq<Path>, skipped: nat)
    requires Walked(disk, seen, read, stack, listing, skipped) && stack != []
    ensures var top := |stack| - 1;
            && Walked(disk, seen, read + {stack[top]}, stack[..top], listing, skipped)
            && IsFolder(disk, stack[top]) && stack[top] in Folders(disk) && stack[top] !in read
  {
    hide SafePath;
    var top := |stack| - 1;
    assert stack == stack[..top] + [stack[top]];
    assert stack[top] in stack;
  }

  /** With nothing left on the stack everything has been met. */
  lemma {:induction false} AllMet(disk: Disk, read: set<Path>, p: Path)
    requires Rooted(disk) && p in disk
    requires forall d :: d in read <==> d == [] || (d in Inside(disk, read) && IsFolder(disk, d))
    ensures p in Inside(disk, read)
    decreases |p|
  {
    if Parent(p) != [] {
      assert IsFolder(disk, Parent(p));
      AllMet(disk, read, Parent(p));
    }
  }

  lemma WalkEnds(disk: Disk, read: set<Path>, listing: seq<Path>, skipped: nat)
    requires Rooted(disk) && Walked(disk, Inside(disk, read), read, [], listing, skipped)
    ensures Listing(Tree(disk), listing) && skipped == |Links(disk)|
    ensures forall p :: p in disk ==> SafePath(p)
  {
    hide SafePath;
    forall p | p in disk
      ensures p in Inside(disk, read)
    {
      AllMet(disk, read, p);
    }
    assert Inside(disk, read) * Links(disk) == Links(disk);
  }

  lemma {:induction false} OnlyFoldersAbove(disk: Disk, p: Path, q: Path)
    requires Rooted(disk) && q in disk && q[0] != SLASH && Above(p, q)
    ensures p != [] && IsDir(Tree(disk), p)
    decreases |q|
  {
    NearestAbove(p, q);
    assert IsFolder(disk, Parent(q));
    if p != Parent(q) {
      OnlyFoldersAbove(disk, p, Parent(q));
    }
  }

  /** What is packed is a tree: directories all the way up. */
  lemma TreeIsValid(disk: Disk)
    requires Rooted(disk) && forall p :: p in disk ==> SafePath(p)
    ensures ValidTree(Tree(disk))
  {
    hide SafePath, Above, IsFolder;
    forall p, q | q in Tree(disk) && Above(p, q)
      ensures IsDir(Tree(disk), p)
    {
      SafeStart(q);
      OnlyFoldersAbove(disk, p, q);
    }
  }

  lemma SafeStart(p: Path)
    requires SafePath(p)
    ensures p != [] && p[0] != SLASH
  {
  }

  // ---- The code --------------------------------------------------------------------------------

  /** The walking loops: what is packed, in the order it was met, and how many links were
      skipped. A name that does not validate ends the walk, whatever it stands for. */
  method WalkTree(disk: Disk, readDir: Path -> seq<Path>)
    returns (r: Result<seq<Path>, ManifestError>, symlinksSkipped: nat)
    requires Rooted(disk) && Reads(disk, readDir)
    ensures r.Ok? <==> forall p :: p in disk ==> SafePath(p)
    ensures r.Ok? ==> Listing(Tree(disk), r.value) && ValidTree(Tree(disk)) && symlinksSkipped == |Links(disk)|
    ensures r.Err? ==> r == Err(UnsafePath)
  {
    hide SafePath, Walked, Inside, Partly, Rooted, Reads, Folders, Tree, Links, Listing, ValidTree;
    var listing: seq<Path> := [];
    var stack: seq<Path> := [[]];
    symlinksSkipped := 0;
    ghost var read: set<Path> := {};
    WalkStarts(disk);
    while stack != []
      invariant Walked(disk, Inside(disk, read), read, stack, listing, symlinksSkipped)
      decreases Folders(disk) - read
    {
      Take(disk, Inside(disk, read), read, stack, listing, symlinksSkipped);
      var dir := stack[|stack| - 1];
      stack := stack[..|stack| - 1];
      FolderRead(disk, readDir, read, dir);
      var names := readDir(dir);
      for i := 0 to |names|
        invariant Walked(disk, Partly(disk, readDir, read, dir, i), read + {dir}, stack, listing, symlinksSkipped)
      {
        var p := names[i];
        NextName(disk, readDir, read, dir, i);
        if !SafePath(p) {
          return Err(UnsafePath), symlinksSkipped;
        }
        Meet(disk, Partly(disk, readDir, read, dir, i), read + {dir}, stack, listing, symlinksSkipped, p);
        if disk[p].Symlink? {
          symlinksSkipped := symlinksSkipped + 1;
        } else if IsPacked(disk, p) {
          listing := listing + [p];
          if disk[p].node.DirNode? {
            stack := stack + [p];
          }
        }
      }
      read := read + {dir};
    }
    WalkEnds(disk, read, listing, symlinksSkipped);
    TreeIsValid(disk);
    r := Ok(listing);
  }

  /** `build_manifest`: the manifest of what lies below the root, whatever order directories
      are read in; links are left out, and nothing else is. */
  method BuildFromDisk(hash: seq<byte> -> Digest, disk: Disk, readDir: Path -> seq<Path>,
                       ghost listing: seq<Path>)
    returns (r: Result<Manifest, ManifestError>, symlinksSkipped: nat)
    requires Rooted(disk) && Reads(disk, readDir)
    requires Listing(Tree(disk), listing) && TotalSize(Tree(disk), SortedFiles(Tree(disk), listing)) < U64_LIMIT
    ensures r.Ok? <==> forall p :: p in disk ==> SafePath(p)
    ensures r.Ok? ==> ValidTree(Tree(disk))
    ensures r.Ok? ==> r.value == Built(hash, Tree(disk), listing) && symlinksSkipped == |Links(disk)|
    ensures r.Err? ==> r == Err(UnsafePath)
  {
    hide SafePath, Built, SortedFiles, TotalSize, Listing, ValidTree;
    var walked;
    walked, symlinksSkipped := WalkTree(disk, readDir);
    if walked.Err? {
      return Err(UnsafePath), symlinksSkipped;
    }
    BuildIsOrderIndependent(hash, Tree(disk), listing, walked.value);
    r := BuildManifest(hash, Tree(disk), walked.value);
  }

  // ---- From disk to disk ----------------------------------------------------------------------

  datatype TransferError = NotPacked(packing: ManifestError) | NotUnpacked(unpacking: UnpackError)

  lemma {:induction false} SameLength(a: seq<Path>, b: seq<Path>)
    requires Distinct(a) && Distinct(b) && forall p :: p in a <==> p in b
    ensures |a| == |b|
  {
    SortAscending(a);
    SortAscending(b);
    AscendingUnique(SortPaths(a), SortPaths(b));
    SortLength(a);
    SortLength(b);
  }

  /** What a transfer assumes of a tree does not depend on the order it was met in. */
  lemma {:induction false} TransferableAnyOrder(env: Env, t: FileTree, l: seq<Path>, l': seq<Path>)
    requires Transferable(env, t, l) && Listing(t, l')
    ensures Transferable(env, t, l') && PackedLength(env, t, l') == PackedLength(env, t, l)
  {
    hide Built, SortedFiles, TotalSize, ValidTree, ManifestBytes, ManifestPrefix;
    BuildIsOrderIndependent(env.hash, t, l, l');
    SameLength(l, l');
  }

  /** A directory with links and special files in it, its own directories read in any
      order: walked, packed, sent in blocks, reassembled, verified and unpacked. Unless a
      name does not validate, what is packed of it comes out restored exactly when no
      directory is named like a file's temporary name and every directory with an entry in
      it may be written by the receiver; the links are counted and nothing else is left
      out but special files. `listing` is any order of what is packed. */
  method TransferDisk(host: Host, env: Env, disk: Disk, readDir: Path -> seq<Path>, blockSize: u32, order: seq<nat>,
                      blank: seq<byte>, ghost listing: seq<Path>)
    returns (r: Result<FileTree, TransferError>, symlinksSkipped: nat)
    requires Rooted(disk) && Reads(disk, readDir) && Transferable(env, Tree(disk), listing)
    requires Offerable(PackedLength(env, Tree(disk), listing), blockSize, order)
    requires |blank| == PackedLength(env, Tree(disk), listing)
    ensures r == Err(NotPacked(UnsafePath)) <==> exists p :: p in disk && !SafePath(p)
    ensures (forall p :: p in disk ==> SafePath(p)) ==>
              && symlinksSkipped == |Links(disk)|
              && (if NoTempDirs(Tree(disk)) && OpenTree(host, Tree(disk)) then r == Ok(Restored(host, Tree(disk)))
                  else r.Err? || !Complete(Ok(r.value), Tree(disk)))
              && (r == Ok(Tree(disk)) <==>
                    NoTempDirs(Tree(disk)) && OpenTree(host, Tree(disk)) && ModesKept(host, Tree(disk)))
  {
    hide SafePath, Transferable, Offerable, PackedLength, NoTempDirs, OpenTree, Restored, ModesKept, Listing, Tree;
    var walked;
    walked, symlinksSkipped := WalkTree(disk, readDir);
    if walked.Err? {
      return Err(NotPacked(UnsafePath)), symlinksSkipped;
    }
    TransferableAnyOrder(env, Tree(disk), listing, walked.value);
    var received := TransferTree(host, env, Tree(disk), walked.value, blockSize, order, blank);
    r := if received.Ok? then Ok(received.value) else Err(NotUnpacked(received.error));
  }
}
