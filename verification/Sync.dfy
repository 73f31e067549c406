/** Running a sync plan on a strict file system: directories, then copies and file
    deletes in any order, then directory deletes; and what a finished sync means. */
module Sync {
  import opened Bytes
  import opened Seqs
  import opened SyncPlan
  import opened SyncMeaning
  import Times

  /** What the destination reports of a file just written. */
  datatype Stamp = Stamp(mtime: Option<string>, sized: bool)

  datatype FsError = Exists | NoParent | IsADirectory | NotFound | NotEmpty

  // ---- A file system that does nothing on its own ------------------------------------------

  predicate HasParent(t: Tree, p: Path) {
    |p| <= 1 || (p[..|p| - 1] in t && t[p[..|p| - 1]].Dir?)
  }

  predicate ChildOf(q: Path, p: Path) {
    |q| == |p| + 1 && q[..|p|] == p
  }

  predicate HasChild(t: Tree, p: Path) {
    exists q :: q in t && ChildOf(q, p)
  }

  function MkdirIn(t: Tree, p: Path): Result<Tree, FsError> {
    if p in t then Err(Exists) else if !HasParent(t, p) then Err(NoParent) else Ok(t[p := Dir])
  }

  function WriteIn(t: Tree, p: Path, bytes: seq<byte>, stamp: Stamp): Result<Tree, FsError> {
    if p in t && t[p].Dir? then Err(IsADirectory)
    else if !HasParent(t, p) then Err(NoParent)
    else Ok(t[p := File(bytes, stamp.mtime, stamp.sized)])
  }

  /** `delete` without recursion. */
  function DeleteIn(t: Tree, p: Path): Result<Tree, FsError> {
    if p !in t then Err(NotFound) else if HasChild(t, p) then Err(NotEmpty) else Ok(t - {p})
  }

  /** The destination. */
  class Store {
    var tree: Tree

    method Mkdir(p: Path) returns (r: Option<FsError>)
      modifies this
      ensures match MkdirIn(old(tree), p)
              case Ok(t) => r.None? && tree == t
              case Err(e) => r == Some(e) && tree == old(tree)
    {
      var m := MkdirIn(tree, p);
      if m.Err? {
        return Some(m.error);
      }
      tree, r := m.value, None;
    }

    method Write(p: Path, bytes: seq<byte>, stamp: Stamp) returns (r: Option<FsError>)
      modifies this
      ensures match WriteIn(old(tree), p, bytes, stamp)
              case Ok(t) => r.None? && tree == t
              case Err(e) => r == Some(e) && tree == old(tree)
    {
      var m := WriteIn(tree, p, bytes, stamp);
      if m.Err? {
        return Some(m.error);
      }
      tree, r := m.value, None;
    }

    method Delete(p: Path) returns (r: Option<FsError>)
      modifies this
      ensures match DeleteIn(old(tree), p)
              case Ok(t) => r.None? && tree == t
              case Err(e) => r == Some(e) && tree == old(tree)
    {
      var m := DeleteIn(tree, p);
      if m.Err? {
        return Some(m.error);
      }
      tree, r := m.value, None;
    }
  }

  predicate IsDir(t: Tree, p: Path) {
    p in t && t[p].Dir?
  }

  /** The two trees agree at `p`. */
  predicate SameAt(a: Tree, b: Tree, p: Path) {
    (p in a <==> p in b) && (p in a ==> a[p] == b[p])
  }

  /** Nothing but `ps` has changed. */
  ghost predicate Untouched(a: Tree, b: Tree, ps: set<Path>) {
    forall p :: p !in ps ==> SameAt(a, b, p)
  }

  lemma NoActions(s: seq<Action>)
    ensures ActionPaths(s[..0]) == {} && s[..|s|] == s
  {
  }

  // ---- 1. Directories, shallowest first -----------------------------------------------------

  function Level(a: Action): int {
    Slashes(a.path)
  }

  function WithDirs(t: Tree, ps: set<Path>): Tree {
    map p | p in t.Keys + ps :: if p in ps then Dir else t[p]
  }

  /** Each is new, and its parent is there or among those to be made. */
  predicate MkdirsReady(t: Tree, ms: seq<Action>) {
    && Keyed(ms, ActionPath) && Sorted(ms, Level)
    && forall i :: 0 <= i < |ms| ==>
         && ms[i].path !in t && ms[i].path != []
         && (HasParent(t, ms[i].path) || ms[i].path[..|ms[i].path| - 1] in ActionPaths(ms))
  }

  /** Shallowest first: a parent still to be made comes earlier. */
  lemma ParentFirst(t: Tree, ms: seq<Action>, i: nat)
    requires MkdirsReady(t, ms) && i < |ms| && !HasParent(t, ms[i].path)
    ensures ms[i].path[..|ms[i].path| - 1] in ActionPaths(ms[..i])
  {
    var up := ms[i].path[..|ms[i].path| - 1];
    var j :| 0 <= j < |ms| && ms[j].path == up;
    assert Level(ms[j]) < Level(ms[i]);
    assert j < i;
    assert ms[..i][j].path == up;
  }

  lemma MkdirStep(t: Tree, ms: seq<Action>, i: nat)
    requires MkdirsReady(t, ms) && i < |ms|
    ensures MkdirIn(WithDirs(t, ActionPaths(ms[..i])), ms[i].path) == Ok(WithDirs(t, ActionPaths(ms[..i + 1])))
  {
    hide ActionPaths, Sorted;
    var p, before := ms[i].path, ActionPaths(ms[..i]);
    ActionPathsSnoc(ms, i);
    var now := WithDirs(t, before);
    if !HasParent(t, p) {
      ParentFirst(t, ms, i);
    }
    assert now[p := Dir] == WithDirs(t, before + {p});
  }

  method MakeDirs(store: Store, ms: seq<Action>) returns (r: Result<nat, FsError>)
    modifies store
    ensures Untouched(old(store.tree), store.tree, ActionPaths(ms))
    ensures MkdirsReady(old(store.tree), ms) ==>
              r == Ok(|ms|) && store.tree == WithDirs(old(store.tree), ActionPaths(ms))
  {
    hide MkdirsReady, ActionPaths;
    NoActions(ms);
    ghost var t := store.tree;
    assert WithDirs(t, {}) == t;
    var created := 0;
    for i := 0 to |ms|
      invariant created == i
      invariant Untouched(t, store.tree, ActionPaths(ms))
      invariant MkdirsReady(t, ms) ==> store.tree == WithDirs(t, ActionPaths(ms[..i]))
    {
      ActionPathsSnoc(ms, i);
      if MkdirsReady(t, ms) {
        MkdirStep(t, ms, i);
      }
      var failed := store.Mkdir(ms[i].path);
      if failed.Some? {
        return Err(failed.value);
      }
      created := created + 1;
    }
    r := Ok(created);
  }

  // ---- 2. Copies, in any order ---------------------------------------------------------------

  function WithFiles(t: Tree, ps: set<Path>, S: Tree, stamp: Path -> Stamp): Tree
    requires forall p :: p in ps ==> p in S && S[p].File?
  {
    map p | p in t.Keys + ps :: if p in ps then File(S[p].bytes, stamp(p).mtime, stamp(p).sized) else t[p]
  }

  predicate CopiesReady(t: Tree, S: Tree, cs: seq<Action>) {
    && Keyed(cs, ActionPath)
    && forall i :: 0 <= i < |cs| ==>
         && cs[i].path in S && S[cs[i].path].File?
         && HasParent(t, cs[i].path) && (cs[i].path in t ==> t[cs[i].path].File?)
  }

  lemma CopyPathsAreFiles(t: Tree, S: Tree, cs: seq<Action>, i: nat)
    requires CopiesReady(t, S, cs) && i <= |cs|
    ensures forall p :: p in ActionPaths(cs[..i]) ==> p in S && S[p].File? && (p in t ==> t[p].File?)
  {
    forall p | p in ActionPaths(cs[..i])
      ensures p in S && S[p].File? && (p in t ==> t[p].File?)
    {
      var j :| 0 <= j < i && cs[..i][j].path == p;
      assert cs[j].path == p;
    }
  }

  lemma CopyStep(t: Tree, S: Tree, cs: seq<Action>, i: nat, stamp: Path -> Stamp)
    requires CopiesReady(t, S, cs) && i < |cs|
    ensures forall p :: p in ActionPaths(cs[..i]) || p in ActionPaths(cs[..i + 1]) ==> p in S && S[p].File?
    ensures var p := cs[i].path;
            WriteIn(WithFiles(t, ActionPaths(cs[..i]), S, stamp), p, S[p].bytes, stamp(p))
            == Ok(WithFiles(t, ActionPaths(cs[..i + 1]), S, stamp))
  {
    hide ActionPaths;
    CopyPathsAreFiles(t, S, cs, i);
    CopyPathsAreFiles(t, S, cs, i + 1);
    ActionPathsSnoc(cs, i);
    var p, before := cs[i].path, ActionPaths(cs[..i]);
    var now := WithFiles(t, before, S, stamp);
    assert now[p := File(S[p].bytes, stamp(p).mtime, stamp(p).sized)] == WithFiles(t, before + {p}, S, stamp);
  }

  /** Every copy is attempted; the first failure surfaces once all have settled. */
  method CopyFiles(store: Store, S: Tree, cs: seq<Action>, stamp: Path -> Stamp)
    returns (r: Result<nat, FsError>)
    modifies store
    ensures Untouched(old(store.tree), store.tree, ActionPaths(cs))
    ensures forall p :: IsDir(old(store.tree), p) ==> SameAt(old(store.tree), store.tree, p)
    ensures CopiesReady(old(store.tree), S, cs) ==>
              && r == Ok(|cs|) && (forall p :: p in ActionPaths(cs) ==> p in S && S[p].File?)
              && store.tree == WithFiles(old(store.tree), ActionPaths(cs), S, stamp)
  {
    hide CopiesReady, ActionPaths;
    NoActions(cs);
    ghost var t := store.tree;
    assert WithFiles(t, {}, S, stamp) == t;
    r := Ok(0);
    for i := 0 to |cs|
      invariant Untouched(t, store.tree, ActionPaths(cs))
      invariant forall p :: IsDir(t, p) ==> SameAt(t, store.tree, p)
      invariant CopiesReady(t, S, cs) ==>
        && r == Ok(i) && (forall p :: p in ActionPaths(cs[..i]) ==> p in S && S[p].File?)
        && store.tree == WithFiles(t, ActionPaths(cs[..i]), S, stamp)
    {
      ActionPathsSnoc(cs, i);
      if CopiesReady(t, S, cs) {
        CopyStep(t, S, cs, i, stamp);
        CopyPathsAreFiles(t, S, cs, i + 1);
        assert cs[i].path in ActionPaths(cs[..i + 1]);
      }
      var p := cs[i].path;
      var failed := Some(NotFound);
      if p in S && S[p].File? {
        failed := store.Write(p, S[p].bytes, stamp(p));
      }
      if r.Ok? {
        r := if failed.None? then Ok(r.value + 1) else Err(failed.value);
      }
    }
  }

  // ---- 3. File deletes, in any order -----------------------------------------------------------

  predicate FileDeletesReady(t: Tree, ds: seq<Action>) {
    && Keyed(ds, ActionPath)
    && forall i :: 0 <= i < |ds| ==> ds[i].path in t && !HasChild(t, ds[i].path)
  }

  lemma FileDeleteStep(t: Tree, ds: seq<Action>, i: nat)
    requires FileDeletesReady(t, ds) && i < |ds|
    ensures DeleteIn(t - ActionPaths(ds[..i]), ds[i].path) == Ok(t - ActionPaths(ds[..i + 1]))
  {
    hide ActionPaths;
    ActionPathsSnoc(ds, i);
    var now := t - ActionPaths(ds[..i]);
    assert now - {ds[i].path} == t - (ActionPaths(ds[..i]) + {ds[i].path});
  }

  method DeleteFiles(store: Store, ds: seq<Action>) returns (r: Result<nat, FsError>)
    modifies store
    ensures Untouched(old(store.tree), store.tree, ActionPaths(ds))
    ensures FileDeletesReady(old(store.tree), ds) ==> r == Ok(|ds|) && store.tree == old(store.tree) - ActionPaths(ds)
  {
    hide FileDeletesReady, ActionPaths;
    NoActions(ds);
    ghost var t := store.tree;
    assert t - {} == t;
    r := Ok(0);
    for i := 0 to |ds|
      invariant Untouched(t, store.tree, ActionPaths(ds))
      invariant FileDeletesReady(t, ds) ==> r == Ok(i) && store.tree == t - ActionPaths(ds[..i])
    {
      ActionPathsSnoc(ds, i);
      if FileDeletesReady(t, ds) {
        FileDeleteStep(t, ds, i);
      }
      var failed := store.Delete(ds[i].path);
      if r.Ok? {
        r := if failed.None? then Ok(r.value + 1) else Err(failed.value);
      }
    }
  }

  // ---- 4. Directory deletes, deepest first ------------------------------------------------------

  function Unlevel(a: Action): int {
    Shallowness(a.path)
  }

  predicate DirDeletesReady(t: Tree, ds: seq<Action>) {
    && Keyed(ds, ActionPath) && Sorted(ds, Unlevel)
    && forall i :: 0 <= i < |ds| ==> ds[i].path in t
  }

  /** All there is below the directories to delete is being deleted. */
  predicate Closed(t: Tree, ps: set<Path>) {
    forall p, q :: p in ps && q in t && ChildOf(q, p) ==> q in ps
  }

  lemma DirDeleteStep(t: Tree, ds: seq<Action>, i: nat)
    requires DirDeletesReady(t, ds) && i < |ds|
    requires forall q :: q in t && ChildOf(q, ds[i].path) ==> q in ActionPaths(ds)
    ensures DeleteIn(t - ActionPaths(ds[..i]), ds[i].path) == Ok(t - ActionPaths(ds[..i + 1]))
  {
    var p, before := ds[i].path, ActionPaths(ds[..i]);
    ActionPathsSnoc(ds, i);
    forall q | q in t && ChildOf(q, p)
      ensures q in before
    {
      var j :| 0 <= j < |ds| && ds[j].path == q;
      assert Unlevel(ds[j]) < Unlevel(ds[i]);
      assert j < i;
      assert ds[..i][j].path == q;
    }
    assert (t - before) - {p} == t - (before + {p});
  }

  /** Sequential: stops at the first failure, which comes exactly when something that
      stays lies directly below one of the directories. */
  method DeleteDirs(store: Store, ds: seq<Action>) returns (r: Result<nat, FsError>)
    modifies store
    ensures Untouched(old(store.tree), store.tree, ActionPaths(ds))
    ensures DirDeletesReady(old(store.tree), ds) ==> (r.Ok? <==> Closed(old(store.tree), ActionPaths(ds)))
    ensures DirDeletesReady(old(store.tree), ds) && r.Ok? ==>
              r == Ok(|ds|) && store.tree == old(store.tree) - ActionPaths(ds)
  {
    hide DirDeletesReady, ActionPaths;
    NoActions(ds);
    ghost var t := store.tree;
    assert t - {} == t;
    var deleted := 0;
    for i := 0 to |ds|
      invariant deleted == i
      invariant Untouched(t, store.tree, ActionPaths(ds))
      invariant DirDeletesReady(t, ds) ==> store.tree == t - ActionPaths(ds[..i])
      invariant DirDeletesReady(t, ds) ==>
        forall p, q :: p in ActionPaths(ds[..i]) && q in t && ChildOf(q, p) ==> q in ActionPaths(ds)
    {
      ActionPathsSnoc(ds, i);
      var p := ds[i].path;
      ghost var alone := forall q :: q in t && ChildOf(q, p) ==> q in ActionPaths(ds);
      if DirDeletesReady(t, ds) {
        if alone {
          DirDeleteStep(t, ds, i);
        } else {
          var q :| q in t && ChildOf(q, p) && q !in ActionPaths(ds);
          assert SameAt(t, store.tree, q);
          assert HasChild(store.tree, p);
        }
      }
      var failed := store.Delete(p);
      if failed.Some? {
        return Err(failed.value);
      }
      deleted := deleted + 1;
    }
    r := Ok(deleted);
  }

  // ---- Source, destination and what was listed of it ------------------------------------------

  /** What a listing `L` names deep reports of a destination. */
  function Top(T: Tree, L: nat): Tree {
    map p | p in T && |p| <= L :: T[p]
  }

  /** A directory on one side where the other has a file. */
  predicate Clashes(S: Tree, T: Tree, p: Path) {
    p in S && p in T && S[p].Dir? != T[p].Dir?
  }

  predicate NoClash(S: Tree, T: Tree) {
    forall p :: p in S && p in T ==> !Clashes(S, T, p)
  }

  /** Something too deep to be listed lies below a directory the source does not have. */
  predicate Buried(S: Tree, T: Tree, L: nat) {
    exists q :: q in T && |q| > L && q[..L] !in S
  }

  /** A source and a destination as `sync` meets them: the source cut off below the
      listing's depth, the destination not. */
  ghost predicate Setting(S: Tree, T: Tree, L: nat) {
    Rooted(S) && Rooted(T) && L > 0 && forall p :: p in S ==> |p| <= L
  }

  /** The destination once the plan has run. */
  function Outcome(S: Tree, T: Tree, L: nat, c: Config, stamp: Path -> Stamp): Tree {
    var D := Top(T, L);
    map p | p in T.Keys + S.Keys
            && ((p in S && (S[p].Dir? || Copies(S, D, c, p))) || (p in T && (p in S || |p| > L || !c.delete)))
      :: if p in S && S[p].Dir? then Dir
         else if Copies(S, D, c, p) then File(S[p].bytes, stamp(p).mtime, stamp(p).sized)
         else T[p]
  }

  lemma MkdirsAreReady(S: Tree, T: Tree, L: nat, ms: seq<Action>)
    requires Setting(S, T, L) && NoClash(S, T)
    requires Keyed(ms, ActionPath) && Sorted(ms, Level) && ActionPaths(ms) == MkdirSet(S, Top(T, L))
    ensures MkdirsReady(T, ms)
  {
    forall i | 0 <= i < |ms|
      ensures ms[i].path !in T && ms[i].path != []
      ensures HasParent(T, ms[i].path) || ms[i].path[..|ms[i].path| - 1] in ActionPaths(ms)
    {
      var p := ms[i].path;
      assert p in ActionPaths(ms);
      if |p| > 1 {
        var up := p[..|p| - 1];
        assert up in S && S[up].Dir?;
        assert up in T ==> !Clashes(S, T, up);
      }
    }
  }

  lemma CopiesAreReady(S: Tree, T: Tree, L: nat, c: Config, cs: seq<Action>)
    requires Setting(S, T, L) && NoClash(S, T)
    requires Keyed(cs, ActionPath) && ActionPaths(cs) == CopySet(S, Top(T, L), c)
    ensures CopiesReady(WithDirs(T, MkdirSet(S, Top(T, L))), S, cs)
  {
    hide CopyWanted;
    var made := WithDirs(T, MkdirSet(S, Top(T, L)));
    forall i | 0 <= i < |cs|
      ensures cs[i].path in S && S[cs[i].path].File?
      ensures HasParent(made, cs[i].path) && (cs[i].path in made ==> made[cs[i].path].File?)
    {
      var p := cs[i].path;
      assert p in ActionPaths(cs);
      assert p in T ==> !Clashes(S, T, p);
      if |p| > 1 {
        var up := p[..|p| - 1];
        assert up in S && S[up].Dir?;
        assert up in T ==> !Clashes(S, T, up);
      }
    }
  }

  /** After the copies: everything the destination had, with the source laid over it. */
  function Merged(S: Tree, T: Tree, L: nat, c: Config, stamp: Path -> Stamp): Tree {
    WithFiles(WithDirs(T, MkdirSet(S, Top(T, L))), CopySet(S, Top(T, L), c), S, stamp)
  }

  lemma ChildUp(q: Path, p: Path)
    ensures ChildOf(q, p) ==> |q| == |p| + 1 && q[..|q| - 1] == p
  {
  }

  lemma FileDeletesAreReady(S: Tree, T: Tree, L: nat, c: Config, stamp: Path -> Stamp, ds: seq<Action>)
    requires Setting(S, T, L) && NoClash(S, T) && c.delete
    requires Keyed(ds, ActionPath) && ActionPaths(ds) == Extraneous(Top(T, L).Keys, S, Top(T, L), false)
    ensures FileDeletesReady(Merged(S, T, L, c, stamp), ds)
  {
    hide CopyWanted, ActionPaths;
    var t := Merged(S, T, L, c, stamp);
    forall i | 0 <= i < |ds|
      ensures ds[i].path in t && !HasChild(t, ds[i].path)
    {
      var p := ds[i].path;
      ActionPathsSnoc(ds, i);
      assert p in T && p !in S && p != [];
      forall q | q in t
        ensures !ChildOf(q, p)
      {
        ChildUp(q, p);
      }
    }
  }

  lemma AncestorIn(t: Tree, q: Path, k: nat)
    requires Rooted(t) && q in t && 0 < k <= |q|
    ensures q[..k] in t && (k < |q| ==> t[q[..k]].Dir?)
    decreases |q|
  {
    if k < |q| {
      var up := q[..|q| - 1];
      AncestorIn(t, up, k);
      assert up[..k] == q[..k];
    } else {
      assert q[..k] == q;
    }
  }

  /** The copies and new directories are all of the source. */
  lemma MergedKeys(S: Tree, T: Tree, L: nat, c: Config, stamp: Path -> Stamp, p: Path)
    ensures p in Merged(S, T, L, c, stamp) ==> p in T || p in S
    ensures p in T ==> p in Merged(S, T, L, c, stamp)
  {
    hide CopyWanted;
  }

  /** What is left of the tree when directory deletes begin. */
  function BeforeDirs(S: Tree, T: Tree, L: nat, c: Config, stamp: Path -> Stamp): Tree {
    Merged(S, T, L, c, stamp) - Extraneous(Top(T, L).Keys, S, Top(T, L), false)
  }

  /** What is there before directories are deleted, and which of it is to go. */
  lemma BeforeDirsAt(S: Tree, T: Tree, L: nat, c: Config, stamp: Path -> Stamp, p: Path)
    requires Setting(S, T, L) && c.delete
    ensures var t, dirs := BeforeDirs(S, T, L, c, stamp), Extraneous(Top(T, L).Keys, S, Top(T, L), true);
            && (p in dirs <==> p in T && |p| <= L && p !in S && T[p].Dir?)
            && (p in dirs ==> p != [])
            && (p in t ==> p in T || p in S)
            && (p in t && |p| <= L && p !in S ==> p in T && T[p].Dir?)
            && (p in T && (|p| > L || p in S || T[p].Dir?) ==> p in t)
  {
    hide Merged, ChildOf;
    MergedKeys(S, T, L, c, stamp, p);
  }

  /** Below a directory to delete something stays that was too deep to be listed. */
  lemma BuriedStays(S: Tree, T: Tree, L: nat, c: Config, stamp: Path -> Stamp)
    requires Setting(S, T, L) && c.delete && Buried(S, T, L)
    ensures !Closed(BeforeDirs(S, T, L, c, stamp), Extraneous(Top(T, L).Keys, S, Top(T, L), true))
  {
    hide ChildOf, BeforeDirs, Extraneous, Top;
    var q :| q in T && |q| > L && q[..L] !in S;
    AncestorIn(T, q, L);
    AncestorIn(T, q, L + 1);
    ChildDown(q, L);
    BeforeDirsAt(S, T, L, c, stamp, q[..L]);
    BeforeDirsAt(S, T, L, c, stamp, q[..L + 1]);
  }

  /** Otherwise everything below one is to go too. */
  lemma UnburiedCloses(S: Tree, T: Tree, L: nat, c: Config, stamp: Path -> Stamp)
    requires Setting(S, T, L) && c.delete && NoClash(S, T) && !Buried(S, T, L)
    ensures Closed(BeforeDirs(S, T, L, c, stamp), Extraneous(Top(T, L).Keys, S, Top(T, L), true))
  {
    hide ChildOf, BeforeDirs, Extraneous, Top, Buried, Setting;
    var t, dirs := BeforeDirs(S, T, L, c, stamp), Extraneous(Top(T, L).Keys, S, Top(T, L), true);
    forall p, q | p in dirs && q in t && ChildOf(q, p)
      ensures q in dirs
    {
      BeforeDirsAt(S, T, L, c, stamp, p);
      BeforeDirsAt(S, T, L, c, stamp, q);
      NotBuried(S, T, L, q);
      ChildUp(q, p);
    }
  }

  /** The directories to delete are left empty by what is deleted before them, unless
      something was buried too deep to be listed. */
  lemma DirDeletesAreReady(S: Tree, T: Tree, L: nat, c: Config, stamp: Path -> Stamp)
    requires Setting(S, T, L) && NoClash(S, T) && c.delete
    ensures var t, dirs := BeforeDirs(S, T, L, c, stamp), Extraneous(Top(T, L).Keys, S, Top(T, L), true);
            dirs <= t.Keys && (Closed(t, dirs) <==> !Buried(S, T, L))
  {
    hide BeforeDirs, Extraneous, Closed, Buried, Setting;
    var t, dirs := BeforeDirs(S, T, L, c, stamp), Extraneous(Top(T, L).Keys, S, Top(T, L), true);
    forall p | p in dirs
      ensures p in t
    {
      BeforeDirsAt(S, T, L, c, stamp, p);
    }
    if Buried(S, T, L) {
      BuriedStays(S, T, L, c, stamp);
    } else {
      UnburiedCloses(S, T, L, c, stamp);
    }
  }

  lemma ChildDown(q: Path, k: nat)
    requires k < |q|
    ensures ChildOf(q[..k + 1], q[..k])
  {
  }

  lemma NotBuried(S: Tree, T: Tree, L: nat, q: Path)
    requires !Buried(S, T, L) && Setting(S, T, L)
    ensures q in S && |q| > 1 ==> q[..|q| - 1] in S
    ensures q in T && |q| == L + 1 ==> q[..|q| - 1] in S
  {
  }

  function Gone(S: Tree, T: Tree, L: nat, c: Config): set<Path> {
    var D := Top(T, L);
    if c.delete then Extraneous(D.Keys, S, D, false) + Extraneous(D.Keys, S, D, true) else {}
  }

  lemma RemainsAt(S: Tree, T: Tree, L: nat, c: Config, stamp: Path -> Stamp, p: Path)
    requires Setting(S, T, L) && NoClash(S, T)
    ensures SameAt(Merged(S, T, L, c, stamp) - Gone(S, T, L, c), Outcome(S, T, L, c, stamp), p)
  {
    hide CopyWanted, Rooted;
    var D := Top(T, L);
    assert p in Gone(S, T, L, c) <==> c.delete && p in T && |p| <= L && p !in S;
    assert p in S && p in T ==> !Clashes(S, T, p);
    if p in S && S[p].Dir? {
      assert p in Outcome(S, T, L, c, stamp);
    } else if p in CopySet(S, D, c) {
      assert p in Outcome(S, T, L, c, stamp);
    } else {
      assert p !in WithDirs(T, MkdirSet(S, D)) || p in T;
    }
  }

  lemma WhatRemains(S: Tree, T: Tree, L: nat, c: Config, stamp: Path -> Stamp)
    requires Setting(S, T, L) && NoClash(S, T)
    ensures Merged(S, T, L, c, stamp) - Gone(S, T, L, c) == Outcome(S, T, L, c, stamp)
  {
    hide Merged, Gone, Outcome, Setting, NoClash;
    forall p
      ensures SameAt(Merged(S, T, L, c, stamp) - Gone(S, T, L, c), Outcome(S, T, L, c, stamp), p)
    {
      RemainsAt(S, T, L, c, stamp, p);
    }
    SameEverywhere(Merged(S, T, L, c, stamp) - Gone(S, T, L, c), Outcome(S, T, L, c, stamp));
  }

  lemma SameEverywhere(a: Tree, b: Tree)
    requires forall p :: SameAt(a, b, p)
    ensures a == b
  {
    assert forall p :: p in a ==> SameAt(a, b, p);
    assert forall p :: p in b ==> SameAt(a, b, p);
    assert a.Keys == b.Keys;
  }

  // ---- The run --------------------------------------------------------------------------------

  /** `files_deleted` counts directories too. */
  datatype SyncResult = SyncResult(filesCopied: nat, filesDeleted: nat, filesSkipped: nat, dirsCreated: nat)

  function Counts(S: Tree, D: Tree, c: Config): SyncResult {
    SyncResult(|CopySet(S, D, c)|, |DeleteSet(S, D, c)|, |SkipSet(S, D, c)|, |MkdirSet(S, D)|)
  }

  predicate IsMkdir(a: Action) { a.kind == Mkdir }
  predicate IsCopy(a: Action) { a.kind == Copy }
  predicate IsSkip(a: Action) { a.kind == Skip }
  predicate IsDelete(a: Action) { a.kind == Delete }

  lemma {:induction false} KindParts(actions: seq<Action>, S: Tree, D: Tree, c: Config)
    requires Plans(actions, S, D, c, S.Keys + D.Keys)
    ensures var ms := Filter(actions, IsMkdir); Keyed(ms, ActionPath) && ActionPaths(ms) == MkdirSet(S, D)
    ensures var cs := Filter(actions, IsCopy); Keyed(cs, ActionPath) && ActionPaths(cs) == CopySet(S, D, c)
    ensures var ss := Filter(actions, IsSkip); Keyed(ss, ActionPath) && ActionPaths(ss) == SkipSet(S, D, c)
    ensures var ds := Filter(actions, IsDelete); Keyed(ds, ActionPath) && ActionPaths(ds) == DeleteSet(S, D, c)
  {
    hide Filter, Keyed, ActionPaths, CopyWanted;
    assert forall i :: 0 <= i < |actions| ==> Planned(S, D, c, actions[i].path) == Some(actions[i].kind);
    PartOfPlan(actions, S, D, c, IsMkdir, MkdirSet(S, D));
    PartOfPlan(actions, S, D, c, IsCopy, CopySet(S, D, c));
    PartOfPlan(actions, S, D, c, IsSkip, SkipSet(S, D, c));
    PartOfPlan(actions, S, D, c, IsDelete, DeleteSet(S, D, c));
  }

  /** `buffer_unordered`: the same actions in some order. */
  ghost predicate Shuffles(shuffle: seq<Action> -> seq<Action>) {
    forall s :: multiset(shuffle(s)) == multiset(s)
  }

  /** A plan and the set of directories it deletes, as the planner hands them over. */
  ghost predicate PlansDeletes(actions: seq<Action>, dirDeleteSet: set<Path>, S: Tree, D: Tree, c: Config) {
    && Plans(actions, S, D, c, S.Keys + D.Keys)
    && dirDeleteSet == (if c.delete then Extraneous(D.Keys, S, D, true) else {})
    && Sorted(Filter(actions, (a: Action) => a.path in dirDeleteSet), Unlevel)
  }

  lemma {:induction false} DeleteParts(actions: seq<Action>, dirDeleteSet: set<Path>, S: Tree, D: Tree, c: Config,
                    isFile: Action -> bool, isDir: Action -> bool)
    requires PlansDeletes(actions, dirDeleteSet, S, D, c)
    requires forall a: Action :: isFile(a) <==> a.kind == Delete && a.path !in dirDeleteSet
    requires forall a: Action :: isDir(a) <==> a.path in dirDeleteSet
    ensures var fs := Filter(actions, isFile); Keyed(fs, ActionPath) && ActionPaths(fs) == FilesGone(S, D, c)
    ensures var ds := Filter(actions, isDir);
            Keyed(ds, ActionPath) && Sorted(ds, Unlevel) && ActionPaths(ds) == DirsGone(S, D, c)
  {
    hide Filter, Keyed, ActionPaths, CopyWanted, Sorted;
    assert forall i :: 0 <= i < |actions| ==> Planned(S, D, c, actions[i].path) == Some(actions[i].kind);
    PartOfPlan(actions, S, D, c, isFile, FilesGone(S, D, c));
    PartOfPlan(actions, S, D, c, isDir, dirDeleteSet);
    FilterSame(actions, isDir, (a: Action) => a.path in dirDeleteSet);
  }

  lemma ClashKept(S: Tree, T: Tree, L: nat, c: Config, p: Path)
    requires Setting(S, T, L) && Clashes(S, T, p)
    ensures p !in MkdirSet(S, Top(T, L)) && (p in CopySet(S, Top(T, L), c) ==> IsDir(T, p))
    ensures p !in Extraneous(Top(T, L).Keys, S, Top(T, L), false)
    ensures p !in Extraneous(Top(T, L).Keys, S, Top(T, L), true)
  {
    hide CopyWanted;
  }

  lemma DeleteCount(S: Tree, D: Tree, c: Config)
    ensures |DeleteSet(S, D, c)| ==
      if c.delete then |Extraneous(D.Keys, S, D, false)| + |Extraneous(D.Keys, S, D, true)| else 0
  {
    var f, d := Extraneous(D.Keys, S, D, false), Extraneous(D.Keys, S, D, true);
    if c.delete {
      assert DeleteSet(S, D, c) == f + d && f !! d;
    } else {
      assert DeleteSet(S, D, c) == {};
    }
  }

  /** Phases 1 and 2: new directories, then copies. */
  method BuildUp(store: Store, S: Tree, actions: seq<Action>, c: Config, stamp: Path -> Stamp,
                 shuffle: seq<Action> -> seq<Action>, ghost L: nat)
    returns (r: Result<(nat, nat), FsError>)
    requires Shuffles(shuffle) && Setting(S, store.tree, L)
    requires Plans(actions, S, Top(store.tree, L), c, S.Keys + Top(store.tree, L).Keys)
    modifies store
    ensures forall p :: Clashes(S, old(store.tree), p) ==> SameAt(old(store.tree), store.tree, p)
    ensures NoClash(S, old(store.tree)) ==>
              && store.tree == Merged(S, old(store.tree), L, c, stamp)
              && r == Ok((|MkdirSet(S, Top(old(store.tree), L))|, |CopySet(S, Top(old(store.tree), L), c)|))
  {
    hide Plans, Filter, SortBy, Keyed, Sorted, ActionPaths, MkdirsReady, CopiesReady, NoClash, Rooted;
    hide MkdirSet, CopySet, WithDirs;
    ghost var T := store.tree;
    KindParts(actions, S, Top(T, L), c);
    var wanted := Filter(actions, IsMkdir);
    var mkdirs := SortBy(wanted, Level);
    SortBySorts(wanted, Level);
    Reordered(wanted, mkdirs);
    OneActionEach(mkdirs);
    if NoClash(S, T) {
      MkdirsAreReady(S, T, L, mkdirs);
    }
    var created := MakeDirs(store, mkdirs);
    forall p | Clashes(S, T, p)
      ensures SameAt(T, store.tree, p)
    {
      ClashKept(S, T, L, c, p);
    }
    if created.Err? {
      return Err(created.error);
    }
    ghost var made := store.tree;
    var files := Filter(actions, IsCopy);
    var copies := shuffle(files);
    Reordered(files, copies);
    OneActionEach(copies);
    if NoClash(S, T) {
      CopiesAreReady(S, T, L, c, copies);
    }
    var copied := CopyFiles(store, S, copies, stamp);
    forall p | Clashes(S, T, p)
      ensures SameAt(T, store.tree, p)
    {
      ClashKept(S, T, L, c, p);
      assert SameAt(T, made, p);
      assert SameAt(made, store.tree, p);
    }
    r := if copied.Ok? then Ok((created.value, copied.value)) else Err(copied.error);
  }

  function FilesGone(S: Tree, D: Tree, c: Config): set<Path> {
    if c.delete then Extraneous(D.Keys, S, D, false) else {}
  }

  function DirsGone(S: Tree, D: Tree, c: Config): set<Path> {
    if c.delete then Extraneous(D.Keys, S, D, true) else {}
  }

  lemma FilesReady(S: Tree, T: Tree, L: nat, c: Config, stamp: Path -> Stamp, ds: seq<Action>)
    requires Setting(S, T, L) && NoClash(S, T)
    requires Keyed(ds, ActionPath) && ActionPaths(ds) == FilesGone(S, Top(T, L), c)
    ensures FileDeletesReady(Merged(S, T, L, c, stamp), ds)
  {
    hide Merged, Extraneous, Setting, NoClash;
    if c.delete {
      FileDeletesAreReady(S, T, L, c, stamp, ds);
    } else {
      OneActionEach(ds);
    }
  }

  lemma DirsReady(S: Tree, T: Tree, L: nat, c: Config, stamp: Path -> Stamp, ds: seq<Action>)
    requires Setting(S, T, L) && NoClash(S, T)
    requires Keyed(ds, ActionPath) && Sorted(ds, Unlevel) && ActionPaths(ds) == DirsGone(S, Top(T, L), c)
    ensures var t := Merged(S, T, L, c, stamp) - FilesGone(S, Top(T, L), c);
            && DirDeletesReady(t, ds)
            && (Closed(t, ActionPaths(ds)) <==> !(c.delete && Buried(S, T, L)))
            && t - ActionPaths(ds) == Outcome(S, T, L, c, stamp)
  {
    hide Merged, Setting, NoClash, Outcome, Extraneous, ActionPaths;
    var t := Merged(S, T, L, c, stamp) - FilesGone(S, Top(T, L), c);
    if c.delete {
      DirDeletesAreReady(S, T, L, c, stamp);
    } else {
      OneActionEach(ds);
    }
    forall i | 0 <= i < |ds|
      ensures ds[i].path in t
    {
      ActionPathsSnoc(ds, i);
    }
    WhatRemains(S, T, L, c, stamp);
    assert t - ActionPaths(ds) == Merged(S, T, L, c, stamp) - Gone(S, T, L, c);
  }

  /** Phases 3 and 4: file deletes, then directory deletes. */
  method TearDown(store: Store, ghost S: Tree, ghost T: Tree, actions: seq<Action>, dirDeleteSet: set<Path>,
                  ghost c: Config, ghost stamp: Path -> Stamp, shuffle: seq<Action> -> seq<Action>,
                  ghost L: nat)
    returns (r: Result<nat, FsError>)
    requires Shuffles(shuffle) && Setting(S, T, L)
    requires PlansDeletes(actions, dirDeleteSet, S, Top(T, L), c)
    modifies store
    ensures forall p :: Clashes(S, T, p) ==> SameAt(old(store.tree), store.tree, p)
    ensures NoClash(S, T) && old(store.tree) == Merged(S, T, L, c, stamp) ==>
              && (r.Ok? <==> !(c.delete && Buried(S, T, L)))
              && (r.Ok? ==> store.tree == Outcome(S, T, L, c, stamp) && r.value == |DeleteSet(S, Top(T, L), c)|)
  {
    hide Filter, Keyed, Sorted, ActionPaths, FileDeletesReady, DirDeletesReady, NoClash, Setting;
    hide Extraneous, Merged, Outcome, Closed, Buried, Plans, DeleteSet, Clashes;
    ghost var D := Top(T, L);
    ghost var start := store.tree;
    var isFile := (a: Action) => a.kind == Delete && a.path !in dirDeleteSet;
    var isDir := (a: Action) => a.path in dirDeleteSet;
    DeleteParts(actions, dirDeleteSet, S, D, c, isFile, isDir);
    DeleteCount(S, D, c);
    var files := Filter(actions, isFile);
    var fileDeletes := shuffle(files);
    Reordered(files, fileDeletes);
    OneActionEach(fileDeletes);
    var dirDeletes := Filter(actions, isDir);
    OneActionEach(dirDeletes);
    if NoClash(S, T) {
      FilesReady(S, T, L, c, stamp, fileDeletes);
      DirsReady(S, T, L, c, stamp, dirDeletes);
    }
    forall p | Clashes(S, T, p)
      ensures p !in ActionPaths(fileDeletes) && p !in ActionPaths(dirDeletes)
    {
      ClashKept(S, T, L, c, p);
    }
    var deletedFiles := DeleteFiles(store, fileDeletes);
    if deletedFiles.Err? {
      return Err(deletedFiles.error);
    }
    ghost var middle := store.tree;
    var deletedDirs := DeleteDirs(store, dirDeletes);
    forall p | Clashes(S, T, p)
      ensures SameAt(start, store.tree, p)
    {
      assert SameAt(start, middle, p) && SameAt(middle, store.tree, p);
    }
    r := if deletedDirs.Ok? then Ok(deletedFiles.value + deletedDirs.value) else Err(deletedDirs.error);
  }

  /** What the planner hands over is a plan, with its directory deletes deepest first. */
  lemma {:induction false} PlannerPlans(src: seq<Entry>, dst: seq<Entry>, S: Tree, D: Tree, c: Config)
    requires Lists(src, S) && Lists(dst, D)
    ensures PlansDeletes(Plan(src, dst, c), if c.delete then PathsOf(DeepestFirst(dst, Index(src))) else {}, S, D, c)
  {
    hide Plans, Filter, DeepestFirst, Index, Lists, Plan, PathsOf, Extraneous;
    PlanMeans(src, dst, S, D, c);
    var actions := Plan(src, dst, c);
    var ps := DeepestFirst(dst, Index(src));
    var dirs := if c.delete then PathsOf(ps) else {};
    var inDirs := (a: Action) => a.path in dirs;
    if c.delete {
      DirDeletesSorted(src, dst, S, D, c, inDirs);
      var ds := DeletesOf(ps);
      forall i, j | 0 <= i < j < |ds|
        ensures Unlevel(ds[i]) <= Unlevel(ds[j])
      {
        assert Shallowness(ps[i]) <= Shallowness(ps[j]);
      }
    } else {
      FilterNone(actions, inDirs);
    }
    FilterSame(actions, inDirs, (a: Action) => a.path in dirs);
  }

  /** The counts of a dry run. */
  method Report(actions: seq<Action>) returns (r: SyncResult)
    ensures r == SyncResult(|Filter(actions, IsCopy)|, |Filter(actions, IsDelete)|,
                            |Filter(actions, IsSkip)|, |Filter(actions, IsMkdir)|)
  {
    r := SyncResult(0, 0, 0, 0);
    for i := 0 to |actions|
      invariant r == SyncResult(|Filter(actions[..i], IsCopy)|, |Filter(actions[..i], IsDelete)|,
                                |Filter(actions[..i], IsSkip)|, |Filter(actions[..i], IsMkdir)|)
    {
      OneMore(actions, i, IsCopy);
      OneMore(actions, i, IsDelete);
      OneMore(actions, i, IsSkip);
      OneMore(actions, i, IsMkdir);
      match actions[i].kind
      case Copy => r := r.(filesCopied := r.filesCopied + 1);
      case Mkdir => r := r.(dirsCreated := r.dirsCreated + 1);
      case Delete => r := r.(filesDeleted := r.filesDeleted + 1);
      case Skip => r := r.(filesSkipped := r.filesSkipped + 1);
    }
    assert actions[..|actions|] == actions;
  }

  lemma OneMore(actions: seq<Action>, i: nat, keep: Action -> bool)
    requires i < |actions|
    ensures |Filter(actions[..i + 1], keep)| == |Filter(actions[..i], keep)| + if keep(actions[i]) then 1 else 0
  {
    assert actions[..i + 1] == actions[..i] + [actions[i]];
    FilterAppend(actions[..i], [actions[i]], keep);
    assert [actions[i]][1..] == [];
  }

  lemma {:induction false} CountsOf(actions: seq<Action>, S: Tree, D: Tree, c: Config)
    requires Plans(actions, S, D, c, S.Keys + D.Keys)
    ensures Counts(S, D, c) == SyncResult(|Filter(actions, IsCopy)|, |Filter(actions, IsDelete)|,
                                          |Filter(actions, IsSkip)|, |Filter(actions, IsMkdir)|)
  {
    hide Plans, Filter, CopySet, MkdirSet, SkipSet, DeleteSet, Keyed, ActionPaths;
    KindParts(actions, S, D, c);
    OneActionEach(Filter(actions, IsCopy));
    OneActionEach(Filter(actions, IsDelete));
    OneActionEach(Filter(actions, IsSkip));
    OneActionEach(Filter(actions, IsMkdir));
  }

  /** `sync`, on listings in any order and with concurrent phases in any order.
      Without a kind clash every step is legal unless something buried too deep to be
      listed lies below a directory to delete; then the outcome is exactly the plan's,
      and the counts are those a dry run announces. A clash is never resolved. */
  method SyncTrees(store: Store, S: Tree, src: seq<Entry>, dst: seq<Entry>, c: Config,
                   stamp: Path -> Stamp, shuffle: seq<Action> -> seq<Action>, ghost L: nat)
    returns (r: Result<SyncResult, FsError>)
    requires Shuffles(shuffle) && Setting(S, store.tree, L)
    requires Lists(src, S) && Lists(dst, Top(store.tree, L))
    modifies store
    ensures forall p :: Clashes(S, old(store.tree), p) ==> SameAt(old(store.tree), store.tree, p)
    ensures c.dryRun ==> store.tree == old(store.tree) && r.Ok?
    ensures r.Ok? && (c.dryRun || NoClash(S, old(store.tree))) ==> r.value == Counts(S, Top(old(store.tree), L), c)
    ensures !c.dryRun && NoClash(S, old(store.tree)) ==>
              && (r.Ok? <==> !(c.delete && Buried(S, old(store.tree), L)))
              && (r.Ok? ==> store.tree == Outcome(S, old(store.tree), L, c, stamp))
  {
    hide Plans, Filter, NoClash, Setting, Clashes, Buried, Outcome, Lists, Plan, DeepestFirst, Index;
    hide CopySet, MkdirSet, SkipSet, DeleteSet, PathsOf, Merged, Shuffles;
    ghost var T := store.tree;
    ghost var D := Top(T, L);
    var actions, dirDeleteSet := BuildPlan(src, dst, c);
    PlannerPlans(src, dst, S, D, c);
    CountsOf(actions, S, D, c);
    if c.dryRun {
      var counted := Report(actions);
      return Ok(counted);
    }
    var skipped := |Filter(actions, IsSkip)|;
    var built := BuildUp(store, S, actions, c, stamp, shuffle, L);
    if built.Err? {
      return Err(built.error);
    }
    ghost var middle := store.tree;
    var deleted := TearDown(store, S, T, actions, dirDeleteSet, c, stamp, shuffle, L);
    forall p | Clashes(S, T, p)
      ensures SameAt(T, store.tree, p)
    {
      assert SameAt(T, middle, p) && SameAt(middle, store.tree, p);
    }
    if deleted.Err? {
      return Err(deleted.error);
    }
    r := Ok(SyncResult(built.value.1, deleted.value, skipped, built.value.0));
  }

  // ---- What a finished sync means --------------------------------------------------------------

  /** A plain mirroring sync: delete on, no filter, no bounds, no `--update`. */
  ghost predicate Mirroring(c: Config) {
    c.delete && !c.update && !c.dryRun && c.minSize.None? && c.maxSize.None? && forall p :: c.keep(p)
  }

  /** The same paths, kinds and file sizes. */
  predicate Mirrors(S: Tree, t: Tree) {
    && t.Keys == S.Keys
    && forall p :: p in S ==> t[p].Dir? == S[p].Dir? && (S[p].File? ==> |t[p].bytes| == |S[p].bytes|)
  }

  predicate Shallow(T: Tree, L: nat) {
    forall p :: p in T ==> |p| <= L
  }

  /** A file that is to be replaced can be told from its replacement: by a size that one
      side at least reports, or by the times when those are compared. */
  predicate ToldApart(S: Tree, T: Tree, c: Config) {
    forall p :: p in S && p in T && S[p].File? && T[p].File? && |S[p].bytes| != |T[p].bytes| ==>
      || S[p].sized || T[p].sized
      || (c.compare == ModTime && (S[p].mtime.None? || T[p].mtime.None? || S[p].mtime != T[p].mtime))
  }

  /** What a mirroring sync does not copy is there already, and reports the same. */
  lemma NotCopied(S: Tree, T: Tree, L: nat, c: Config, p: Path)
    requires Setting(S, T, L) && NoClash(S, T) && Mirroring(c)
    requires p in S && S[p].File? && !Copies(S, Top(T, L), c, p)
    ensures p in T && T[p].File? && S[p].sized == T[p].sized && (S[p].sized ==> |T[p].bytes| == |S[p].bytes|)
    ensures c.compare == ModTime ==> S[p].mtime.Some? && S[p].mtime == T[p].mtime
  {
    assert !Clashes(S, T, p);
    assert EntryOf(p, S[p]).size == EntryOf(p, T[p]).size;
  }

  /** A file that cannot be told from its replacement stays, with its own length. */
  lemma TakenForSame(S: Tree, T: Tree, L: nat, c: Config, stamp: Path -> Stamp)
    requires Setting(S, T, L) && NoClash(S, T) && !ToldApart(S, T, c)
    ensures !Mirrors(S, Outcome(S, T, L, c, stamp))
  {
    var p :| p in S && p in T && S[p].File? && T[p].File? && |S[p].bytes| != |T[p].bytes|
             && !S[p].sized && !T[p].sized
             && !(c.compare == ModTime && (S[p].mtime.None? || T[p].mtime.None? || S[p].mtime != T[p].mtime));
    assert !Copies(S, Top(T, L), c, p);
    assert Outcome(S, T, L, c, stamp)[p] == T[p];
  }

  /** What the outcome holds where the source has a file. */
  lemma OutcomeFile(S: Tree, T: Tree, L: nat, c: Config, stamp: Path -> Stamp, p: Path)
    requires Setting(S, T, L) && NoClash(S, T) && Mirroring(c) && p in S && S[p].File?
    ensures p in Outcome(S, T, L, c, stamp)
    ensures var O := Outcome(S, T, L, c, stamp);
            if Copies(S, Top(T, L), c, p) then O[p].File? && O[p].bytes == S[p].bytes
            else p in T && O[p] == T[p] && O[p].File? && S[p].sized == T[p].sized
                 && (S[p].sized || ToldApart(S, T, c) ==> |T[p].bytes| == |S[p].bytes|)
  {
    if !Copies(S, Top(T, L), c, p) {
      NotCopied(S, T, L, c, p);
    }
  }

  lemma OutcomeKeys(S: Tree, T: Tree, L: nat, c: Config, stamp: Path -> Stamp)
    requires Setting(S, T, L) && NoClash(S, T) && Mirroring(c)
    ensures Outcome(S, T, L, c, stamp).Keys == S.Keys <==> Shallow(T, L)
  {
    var O := Outcome(S, T, L, c, stamp);
    forall p | p in S
      ensures p in O
    {
      if S[p].File? {
        OutcomeFile(S, T, L, c, stamp, p);
      }
    }
    if !Shallow(T, L) {
      var q :| q in T && |q| > L;
      assert q in O && q !in S;
    }
  }

  /** The outcome mirrors the source exactly when the whole destination was listed and
      files of different lengths could be told apart; what was copied has the source's
      bytes, and what was not is as it was. */
  lemma OutcomeMirrors(S: Tree, T: Tree, L: nat, c: Config, stamp: Path -> Stamp)
    requires Setting(S, T, L) && NoClash(S, T) && Mirroring(c)
    ensures Mirrors(S, Outcome(S, T, L, c, stamp)) <==> Shallow(T, L) && ToldApart(S, T, c)
    ensures forall p :: Copies(S, Top(T, L), c, p) ==> Outcome(S, T, L, c, stamp)[p].bytes == S[p].bytes
    ensures forall p :: p in S && S[p].File? && !Copies(S, Top(T, L), c, p) ==>
              p in T && Outcome(S, T, L, c, stamp)[p] == T[p] && S[p].sized == T[p].sized
              && (S[p].sized ==> |T[p].bytes| == |S[p].bytes|)
  {
    hide CopyWanted, Setting, NoClash, ToldApart, Shallow, Mirroring;
    OutcomeKeys(S, T, L, c, stamp);
    forall p | p in S && S[p].File?
      ensures p in Outcome(S, T, L, c, stamp)
      ensures var O := Outcome(S, T, L, c, stamp);
              if Copies(S, Top(T, L), c, p) then O[p].File? && O[p].bytes == S[p].bytes
              else p in T && O[p] == T[p] && O[p].File? && S[p].sized == T[p].sized
                   && (S[p].sized || ToldApart(S, T, c) ==> |T[p].bytes| == |S[p].bytes|)
    {
      OutcomeFile(S, T, L, c, stamp, p);
    }
    if !ToldApart(S, T, c) {
      TakenForSame(S, T, L, c, stamp);
    }
  }

  /** A mirroring sync of a destination succeeds and mirrors its source exactly when no
      path is a directory on one side and a file on the other, the listing reached the
      whole destination, and no file is taken for one of another length. */
  method Mirror(store: Store, S: Tree, src: seq<Entry>, dst: seq<Entry>, c: Config,
                stamp: Path -> Stamp, shuffle: seq<Action> -> seq<Action>, ghost L: nat)
    returns (r: Result<SyncResult, FsError>)
    requires Shuffles(shuffle) && Setting(S, store.tree, L) && Mirroring(c)
    requires Lists(src, S) && Lists(dst, Top(store.tree, L))
    modifies store
    ensures r.Ok? && Mirrors(S, store.tree) <==>
              NoClash(S, old(store.tree)) && Shallow(old(store.tree), L) && ToldApart(S, old(store.tree), c)
  {
    hide Shuffles, Lists, Outcome, Setting;
    ghost var T := store.tree;
    r := SyncTrees(store, S, src, dst, c, stamp, shuffle, L);
    if NoClash(S, T) {
      OutcomeMirrors(S, T, L, c, stamp);
    } else {
      var p :| p in S && p in T && Clashes(S, T, p);
      assert SameAt(T, store.tree, p);
    }
  }

  /** A copy found unchanged the next time: what it is compared by reads the same on both
      sides, or with `--update` its time is a later one. */
  predicate SettledAs(f: Node, st: Stamp, c: Config)
    requires f.File?
  {
    || (f.sized == st.sized && (c.compare == ModTime ==> f.mtime.Some? && f.mtime == st.mtime))
    || (c.update && f.mtime.Some? && st.mtime.Some? && Times.LexLe(f.mtime.value, st.mtime.value))
  }

  predicate Settled(S: Tree, T: Tree, L: nat, c: Config, stamp: Path -> Stamp) {
    forall p :: p in CopySet(S, Top(T, L), c) ==> SettledAs(S[p], stamp(p), c)
  }

  predicate NothingToDo(S: Tree, D: Tree, c: Config) {
    forall p :: p in S.Keys + D.Keys ==> Planned(S, D, c, p) in {None, Some(Skip)}
  }

  lemma CopiedAgain(S: Tree, T: Tree, L: nat, c: Config, stamp: Path -> Stamp, p: Path)
    requires Setting(S, T, L) && NoClash(S, T) && Copies(S, Top(T, L), c, p)
    ensures p in Top(Outcome(S, T, L, c, stamp), L)
    ensures Copies(S, Top(Outcome(S, T, L, c, stamp), L), c, p) <==> !SettledAs(S[p], stamp(p), c)
  {
    hide Times.LexLe;
    var O := Outcome(S, T, L, c, stamp);
    assert p in O && O[p] == File(S[p].bytes, stamp(p).mtime, stamp(p).sized);
  }

  lemma SkippedAgain(S: Tree, T: Tree, L: nat, c: Config, stamp: Path -> Stamp, p: Path)
    requires Setting(S, T, L) && NoClash(S, T) && p in S && S[p].File? && !Copies(S, Top(T, L), c, p)
    ensures !Copies(S, Top(Outcome(S, T, L, c, stamp), L), c, p)
  {
    var O := Outcome(S, T, L, c, stamp);
    assert p in O <==> p in T;
    assert p in O ==> O[p] == T[p];
  }

  /** The second run of any sync finds nothing to do exactly when the first one's copies
      settle. */
  lemma SecondRun(S: Tree, T: Tree, L: nat, c: Config, stamp: Path -> Stamp)
    requires Setting(S, T, L) && NoClash(S, T)
    ensures NothingToDo(S, Top(Outcome(S, T, L, c, stamp), L), c) <==> Settled(S, T, L, c, stamp)
  {
    hide CopyWanted, Setting, NoClash, SettledAs;
    var D, O := Top(T, L), Outcome(S, T, L, c, stamp);
    var D' := Top(O, L);
    forall p | p in S && S[p].File?
      ensures Copies(S, D, c, p) ==> (Copies(S, D', c, p) <==> !SettledAs(S[p], stamp(p), c))
      ensures !Copies(S, D, c, p) ==> !Copies(S, D', c, p)
    {
      if Copies(S, D, c, p) {
        CopiedAgain(S, T, L, c, stamp, p);
      } else {
        SkippedAgain(S, T, L, c, stamp, p);
      }
    }
    DirsThere(S, T, L, c, stamp);
    if !Settled(S, T, L, c, stamp) {
      var p :| p in CopySet(S, D, c) && !SettledAs(S[p], stamp(p), c);
      assert p in S.Keys + D'.Keys && Planned(S, D', c, p) == Some(Copy);
    }
  }

  lemma DirsThere(S: Tree, T: Tree, L: nat, c: Config, stamp: Path -> Stamp)
    requires Setting(S, T, L)
    ensures forall p :: p in S && S[p].Dir? ==> p in Top(Outcome(S, T, L, c, stamp), L)
    ensures c.delete ==> forall p :: p in Top(Outcome(S, T, L, c, stamp), L) ==> p in S
  {
    hide CopyWanted;
  }
}
