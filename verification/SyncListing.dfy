/** From the recursive listing's strings to the paths the sync theorems speak of, and the
    two put together: list both sides, plan, and run the plan. */
module SyncListing {
  import opened Bytes
  import opened Seqs
  import Lister
  import opened SyncPlan
  import opened Sync

  // ---- Names in a path ---------------------------------------------------------------------

  function SplitNames(s: string): (names: seq<string>)
    ensures |names| > 0
  {
    if s == [] then [[]]
    else
      var rest := SplitNames(s[1..]);
      if s[0] == '/' then [[]] + rest else [[s[0]] + rest[0]] + rest[1..]
  }

  lemma {:induction false} OneName(name: string)
    requires '/' !in name
    ensures SplitNames(name) == [name]
  {
    if name != [] {
      OneName(name[1..]);
      assert name == [name[0]] + name[1..];
    }
  }

  lemma {:induction false} NameAppended(s: string, name: string)
    requires '/' !in name
    ensures SplitNames(s + "/" + name) == SplitNames(s) + [name]
  {
    var whole := s + "/" + name;
    if s == [] {
      OneName(name);
      assert whole[0] == '/' && whole[1..] == name;
    } else {
      NameAppended(s[1..], name);
      assert whole[0] == s[0] && whole[1..] == s[1..] + "/" + name;
    }
  }

  /** File names: not empty, no slash. */
  predicate Plain(names: seq<string>) {
    forall i :: 0 <= i < |names| ==> names[i] != [] && '/' !in names[i]
  }

  lemma {:induction false} SplitOfJoin(prefix: string, names: seq<string>)
    requires prefix != [] && Plain(names)
    ensures SplitNames(Lister.Join(prefix, names)) == SplitNames(prefix) + names
    decreases |names|
  {
    if names != [] {
      hide SplitNames;
      var rel := Lister.Rel(prefix, names[0]);
      assert rel == prefix + "/" + names[0];
      NameAppended(prefix, names[0]);
      SplitOfJoin(rel, names[1..]);
      FirstOut(SplitNames(prefix), names);
    }
  }

  lemma FirstOut(a: seq<string>, names: seq<string>)
    requires names != []
    ensures (a + [names[0]]) + names[1..] == a + names
  {
  }

  /** A joined path splits into the names it was joined from, so different lists of names
      have different paths. */
  lemma {:induction false} JoinSplits(names: seq<string>)
    requires names != [] && Plain(names)
    ensures SplitNames(Lister.Join([], names)) == names
  {
    assert Lister.Rel([], names[0]) == names[0];
    OneName(names[0]);
    SplitOfJoin(names[0], names[1..]);
    assert names == [names[0]] + names[1..];
  }

  lemma {:induction false} ResolvedIsPlain(cs: seq<Lister.Node>, names: seq<string>)
    requires Lister.Named(cs) && names != [] && Lister.Resolve(cs, names) != []
    ensures Plain(names)
    decreases cs
  {
    if cs[0].name != names[0] {
      ResolvedIsPlain(cs[1..], names);
    } else if |names| > 1 {
      ResolvedIsPlain(cs[0].children, names[1..]);
      assert forall i :: 0 < i < |names| ==> names[i] == names[1..][i - 1];
    }
  }

  // ---- Listings ----------------------------------------------------------------------------

  /** Of a directory only the path is kept. */
  function ToEntry(f: Lister.Found): Entry {
    if f.isDir then Entry(SplitNames(f.path), true, None, None)
    else Entry(SplitNames(f.path), false, f.info.size, f.info.mtime)
  }

  function ToEntries(fs: seq<Lister.Found>): (es: seq<Entry>)
    ensures |es| == |fs| && forall i :: 0 <= i < |fs| ==> es[i] == ToEntry(fs[i])
  {
    seq(|fs|, i requires 0 <= i < |fs| => ToEntry(fs[i]))
  }

  /** The handler's node is the tree's, with what the protocol reports of it. */
  predicate ShownAs(n: Lister.Node, m: Node) {
    && n.isDir == m.Dir?
    && (m.File? ==> n.info == Lister.Info(if m.sized then Some(|m.bytes|) else None, m.mtime))
  }

  /** What the handler serves below `root` is the tree `t`. */
  ghost predicate Shows(root: seq<Lister.Node>, t: Tree) {
    && Lister.Named(root) && [] !in t
    && forall names: Path :: names != [] ==>
         && (names in t <==> Lister.Resolve(root, names) != [])
         && (names in t ==> ShownAs(Lister.Resolve(root, names)[0], t[names]))
  }

  lemma {:induction false} ShownIsNamed(root: seq<Lister.Node>, t: Tree)
    requires Shows(root, t)
    ensures Lister.Named(root)
  {
  }

  lemma {:induction false} EntryOfNode(root: seq<Lister.Node>, t: Tree, names: Path)
    requires Shows(root, t) && names in t
    ensures names != [] && Lister.Resolve(root, names) != []
    ensures ToEntry(Lister.FoundAs(Lister.Join([], names), Lister.Resolve(root, names)[0])) == EntryOf(names, t[names])
  {
    ResolvedIsPlain(root, names);
    JoinSplits(names);
  }

  /** What was found is a node of the tree. */
  lemma {:induction false} FoundIsEntry(root: seq<Lister.Node>, t: Tree, limit: nat, f: Lister.Found)
    returns (names: Path)
    requires Shows(root, t) && Lister.Listable(root, limit, f)
    ensures names in Top(t, limit + 1) && f.path == Lister.Join([], names)
    ensures ToEntry(f) == EntryOf(names, t[names])
  {
    names :| Lister.LeadsTo(root, limit, names)
             && f == Lister.FoundAs(Lister.Join([], names), Lister.Resolve(root, names)[0]);
    assert names in t;
    EntryOfNode(root, t, names);
  }

  /** What the recursive listing returns, in whatever order, lists the tree down to one
      level below the depth limit. */
  lemma {:induction false} ListingLists(root: seq<Lister.Node>, t: Tree, maxDepth: nat, result: seq<Lister.Found>)
    requires Shows(root, t)
    requires multiset(result) == multiset(Lister.Walk(root, [], 0, Lister.Limit(maxDepth)))
    ensures Lists(ToEntries(result), Top(t, Lister.Limit(maxDepth) + 1))
  {
    hide Lister.Listable, Lister.Walk, Lister.Resolve, Lister.Join, Shows, SplitNames;
    var limit := Lister.Limit(maxDepth);
    var es, top := ToEntries(result), Top(t, limit + 1);
    ShownIsNamed(root, t);
    Lister.ListedExactly(root, maxDepth, result);
    forall i | 0 <= i < |es|
      ensures es[i].path in top && es[i] == EntryOf(es[i].path, top[es[i].path])
      ensures result[i].path == Lister.Join([], es[i].path)
    {
      assert result[i] in result;
      var names := FoundIsEntry(root, t, limit, result[i]);
    }
    forall i, j | 0 <= i < j < |es|
      ensures EntryPath(es[i]) != EntryPath(es[j])
    {
      assert Lister.PathOf(result[i]) != Lister.PathOf(result[j]);
    }
    forall p | p in top
      ensures EntryOf(p, top[p]) in es
    {
      var i := EntryIsFound(root, t, limit, result, p);
      assert es[i] == EntryOf(p, top[p]);
    }
  }

  lemma {:induction false} EntryIsFound(root: seq<Lister.Node>, t: Tree, limit: nat, result: seq<Lister.Found>, p: Path)
    returns (i: nat)
    requires Shows(root, t) && p in Top(t, limit + 1)
    requires forall f :: f in result <==> Lister.Listable(root, limit, f)
    ensures i < |result| && ToEntry(result[i]) == EntryOf(p, t[p])
  {
    EntryOfNode(root, t, p);
    var f := Lister.FoundAs(Lister.Join([], p), Lister.Resolve(root, p)[0]);
    assert Lister.LeadsTo(root, limit, p);
    assert f in result;
    i :| 0 <= i < |result| && result[i] == f;
  }

  // ---- List, plan and run -------------------------------------------------------------------

  datatype SyncError = NotListed(listing: Lister.ListError) | NotRun(step: FsError)

  const MAX_SYNC_DEPTH := 200

  /** What the destination serves is the tree `t`; without a root, nothing. */
  ghost predicate ShowsRoot(top: Option<Lister.Node>, t: Tree) {
    match top
    case Some(n) => Shows(n.children, t)
    case None => t == map[]
  }

  /** The destination's listing; a root that is not there is listed as empty. */
  method ListDestination(top: Option<Lister.Node>, maxDepth: nat, ghost t: Tree)
    returns (r: Result<seq<Lister.Found>, Lister.ListError>)
    requires ShowsRoot(top, t)
    ensures r.Err? <==> top.Some? && Lister.Fails(top.value, 0, Lister.Limit(maxDepth))
    ensures r.Ok? ==> Lists(ToEntries(r.value), Top(t, Lister.Limit(maxDepth) + 1))
  {
    hide Shows, Lister.Fails, Lister.Walk;
    if top.None? {
      return Ok([]);
    }
    hide Lists, Top;
    r := Lister.ListRecursive(top.value, maxDepth);
    if r.Ok? {
      ListingLists(top.value.children, t, maxDepth, r.value);
    }
  }

  /** A mirroring sync from the two roots. If the source's root or a directory of either
      side cannot be listed nothing has been changed. Otherwise it succeeds and mirrors what
      was listed of the source exactly when no path is a directory on one side and a file on
      the other, the listing reached the whole destination, and no file is taken for one of
      another length. */
  method SyncRoots(store: Store, srcTop: Lister.Node, dstTop: Option<Lister.Node>, S: Tree, maxDepth: nat, c: Config,
                   stamp: Path -> Stamp, shuffle: seq<Action> -> seq<Action>)
    returns (r: Result<SyncResult, SyncError>)
    requires Shows(srcTop.children, S) && ShowsRoot(dstTop, store.tree)
    requires Rooted(S) && Rooted(store.tree) && Shuffles(shuffle) && Mirroring(c)
    modifies store
    ensures var M := if maxDepth == 0 then 200 else maxDepth;
            var S', T := Top(S, M + 1), old(store.tree);
            if Lister.Fails(srcTop, 0, M) || (dstTop.Some? && Lister.Fails(dstTop.value, 0, M)) then
              r.Err? && store.tree == T
            else r.Ok? && Mirrors(S', store.tree) <==>
                   NoClash(S', T) && Shallow(T, M + 1) && ToldApart(S', T, c)
  {
    hide Shows, ShowsRoot, Shuffles, Lists, NoClash, Shallow, ToldApart, Mirrors, Mirroring;
    hide Lister.Fails, Lister.Walk, Top, Rooted, Setting;
    var effectiveMaxDepth := if maxDepth == 0 then MAX_SYNC_DEPTH else maxDepth;
    var source := Lister.ListRecursive(srcTop, effectiveMaxDepth);
    if source.Err? {
      return Err(NotListed(source.error));
    }
    var destination := ListDestination(dstTop, effectiveMaxDepth, store.tree);
    if destination.Err? {
      return Err(NotListed(destination.error));
    }
    ListingLists(srcTop.children, S, effectiveMaxDepth, source.value);
    TopSetting(S, store.tree, effectiveMaxDepth + 1);
    var ran := Mirror(store, Top(S, effectiveMaxDepth + 1), ToEntries(source.value), ToEntries(destination.value), c,
                      stamp, shuffle, effectiveMaxDepth + 1);
    r := if ran.Ok? then Ok(ran.value) else Err(NotRun(ran.error));
  }

  lemma TopSetting(S: Tree, T: Tree, L: nat)
    requires Rooted(S) && Rooted(T) && L > 0
    ensures Setting(Top(S, L), T, L)
  {
  }
}
