/** What a plan says, path by path, and that it says it once for each path. */
module SyncMeaning {
  import opened Bytes
  import opened Seqs
  import opened SyncPlan

  /** Source file `p` is to be copied; `D` is what was listed of the destination. */
  predicate Copies(S: Tree, D: Tree, c: Config, p: Path) {
    && p in S && S[p].File?
    && CopyWanted(EntryOf(p, S[p]), if p in D then Some(EntryOf(p, D[p])) else None, c)
  }

  /** The one action a path gets, if any. */
  function Planned(S: Tree, D: Tree, c: Config, p: Path): Option<ActionKind> {
    if p in S then
      if S[p].Dir? then (if p in D then None else Some(Mkdir))
      else Some(if Copies(S, D, c, p) then Copy else Skip)
    else if p in D && c.delete then Some(Delete)
    else None
  }

  function ActionPaths(actions: seq<Action>): set<Path> {
    set i | 0 <= i < |actions| :: actions[i].path
  }

  function EntryPaths(es: seq<Entry>): set<Path> {
    set i | 0 <= i < |es| :: es[i].path
  }

  /** `actions` does for each path of `domain` what is planned for it, once. */
  predicate Plans(actions: seq<Action>, S: Tree, D: Tree, c: Config, domain: set<Path>) {
    && Keyed(actions, ActionPath)
    && (forall i :: 0 <= i < |actions| ==>
          actions[i].path in domain && Planned(S, D, c, actions[i].path) == Some(actions[i].kind))
    && (forall p :: p in domain && Planned(S, D, c, p).Some? ==> p in ActionPaths(actions))
  }

  lemma KeyedBoth(a: seq<Action>, b: seq<Action>, da: set<Path>, db: set<Path>)
    requires Keyed(a, ActionPath) && Keyed(b, ActionPath) && da !! db
    requires (forall x :: x in a ==> x.path in da) && (forall x :: x in b ==> x.path in db)
    ensures Keyed(a + b, ActionPath)
  {
    var ab := a + b;
    forall i, j | 0 <= i < j < |ab|
      ensures ActionPath(ab[i]) != ActionPath(ab[j])
    {
      if i < |a| <= j {
        assert ab[i] in a && ab[j] == b[j - |a|] && ab[j] in b;
        assert ab[i].path in da && ab[j].path in db;
      } else if |a| <= i {
        assert ab[i] == b[i - |a|] && ab[j] == b[j - |a|];
      } else {
        assert ab[i] == a[i] && ab[j] == a[j];
      }
    }
  }

  lemma PathsOfBoth(a: seq<Action>, b: seq<Action>, p: Path)
    ensures p in ActionPaths(a) || p in ActionPaths(b) ==> p in ActionPaths(a + b)
  {
    if p in ActionPaths(a) {
      var i :| 0 <= i < |a| && a[i].path == p;
      assert (a + b)[i].path == p;
    }
    if p in ActionPaths(b) {
      var i :| 0 <= i < |b| && b[i].path == p;
      assert (a + b)[|a| + i].path == p;
    }
  }

  lemma PlansBoth(a: seq<Action>, b: seq<Action>, S: Tree, D: Tree, c: Config, da: set<Path>, db: set<Path>)
    requires Plans(a, S, D, c, da) && Plans(b, S, D, c, db) && da !! db
    ensures Plans(a + b, S, D, c, da + db)
  {
    hide Planned, Keyed, ActionPaths;
    var ab := a + b;
    KeyedBoth(a, b, da, db);
    forall i | 0 <= i < |ab|
      ensures ab[i].path in da + db && Planned(S, D, c, ab[i].path) == Some(ab[i].kind)
    {
      assert ab[i] == if i < |a| then a[i] else b[i - |a|];
    }
    forall p | p in da + db && Planned(S, D, c, p).Some?
      ensures p in ActionPaths(ab)
    {
      PathsOfBoth(a, b, p);
    }
  }

  lemma EntryPathsSnoc(es: seq<Entry>)
    requires es != []
    ensures EntryPaths(es) == EntryPaths(es[..|es| - 1]) + {es[|es| - 1].path}
  {
    var n := |es| - 1;
    assert forall i :: 0 <= i < n ==> es[..n][i] == es[i];
    forall p
      ensures p in EntryPaths(es) <==> p in EntryPaths(es[..n]) + {es[n].path}
    {
      if p in EntryPaths(es[..n]) {
        var i :| 0 <= i < n && es[..n][i].path == p;
        assert es[i].path == p;
      }
      if p in EntryPaths(es) && p != es[n].path {
        var i :| 0 <= i < |es| && es[i].path == p;
        assert es[..n][i].path == p;
      }
      assert es[n].path in EntryPaths(es);
    }
  }

  lemma ReportsPrefix(es: seq<Entry>, t: Tree)
    requires es != [] && Reports(es, t)
    ensures Reports(es[..|es| - 1], t) && es[|es| - 1].path !in EntryPaths(es[..|es| - 1])
  {
    var n := |es| - 1;
    assert forall i :: 0 <= i < n ==> es[..n][i] == es[i];
    assert forall i :: 0 <= i < n ==> EntryPath(es[i]) != EntryPath(es[n]);
  }

  lemma DecidePlans(e: Entry, S: Tree, D: Tree, c: Config)
    requires e.path in S && e == EntryOf(e.path, S[e.path])
    ensures Plans(Decide(e, Indexed(D), c), S, D, c, {e.path})
  {
    hide CopyWanted, Wanted;
    var a := Decide(e, Indexed(D), c);
    assert Find(Indexed(D), e.path) == if e.path in D then Some(EntryOf(e.path, D[e.path])) else None;
    assert a != [] ==> a[0].path in ActionPaths(a);
  }

  lemma {:induction false} SourcePlans(es: seq<Entry>, S: Tree, D: Tree, c: Config)
    requires Reports(es, S)
    ensures Plans(SourceActions(es, Indexed(D), c), S, D, c, EntryPaths(es))
  {
    hide Planned, Decide, Plans;
    if es != [] {
      ReportsPrefix(es, S);
      SourcePlans(es[..|es| - 1], S, D, c);
      DecidePlans(es[|es| - 1], S, D, c);
      PlansBoth(SourceActions(es[..|es| - 1], Indexed(D), c), Decide(es[|es| - 1], Indexed(D), c), S, D, c,
                EntryPaths(es[..|es| - 1]), {es[|es| - 1].path});
      EntryPathsSnoc(es);
    } else {
      assert EntryPaths(es) == {};
      PlansNone(S, D, c);
    }
  }

  lemma PlansNone(S: Tree, D: Tree, c: Config)
    ensures Plans([], S, D, c, {})
  {
  }

  /** Extraneous listed files and directories. */
  function Extraneous(ps: set<Path>, S: Tree, D: Tree, dirs: bool): set<Path> {
    set p | p in ps && p !in S && p in D && D[p].Dir? == dirs
  }

  lemma {:induction false} FileDeletesPlan(es: seq<Entry>, S: Tree, D: Tree, c: Config)
    requires Reports(es, D) && c.delete
    ensures Plans(FileDeletes(es, Indexed(S)), S, D, c, Extraneous(EntryPaths(es), S, D, false))
  {
    hide Plans;
    if es == [] {
      assert Extraneous(EntryPaths(es), S, D, false) == {};
      PlansNone(S, D, c);
    } else {
      var d, front := es[|es| - 1], es[..|es| - 1];
      ReportsPrefix(es, D);
      FileDeletesPlan(front, S, D, c);
      EntryPathsSnoc(es);
      var before := Extraneous(EntryPaths(front), S, D, false);
      if d.path !in S && !d.isDir {
        DeletePlans(d.path, d.size, S, D, c);
        PlansBoth(FileDeletes(front, Indexed(S)), [Action(Delete, d.path, None, d.size)], S, D, c, before, {d.path});
        assert Extraneous(EntryPaths(es), S, D, false) == before + {d.path};
      } else {
        assert Extraneous(EntryPaths(es), S, D, false) == before;
        assert FileDeletes(es, Indexed(S)) == FileDeletes(front, Indexed(S)) + [] == FileDeletes(front, Indexed(S));
      }
    }
  }

  lemma DeletePlans(p: Path, size: Option<nat>, S: Tree, D: Tree, c: Config)
    requires c.delete && p !in S && p in D
    ensures Plans([Action(Delete, p, None, size)], S, D, c, {p})
  {
    var a := [Action(Delete, p, None, size)];
    assert a[0].path in ActionPaths(a);
  }

  function Id(p: Path): Path {
    p
  }

  lemma {:induction false} DirDeletesMean(es: seq<Entry>, S: Tree, D: Tree)
    requires Reports(es, D)
    ensures Keyed(DirDeletes(es, Indexed(S)), Id)
    ensures PathsOf(DirDeletes(es, Indexed(S))) == Extraneous(EntryPaths(es), S, D, true)
  {
    if es == [] {
      assert Extraneous(EntryPaths(es), S, D, true) == {};
    } else {
      var d, front := es[|es| - 1], es[..|es| - 1];
      ReportsPrefix(es, D);
      DirDeletesMean(front, S, D);
      EntryPathsSnoc(es);
      var ps := DirDeletes(es, Indexed(S));
      var before := DirDeletes(front, Indexed(S));
      if d.path !in S && d.isDir {
        assert ps == before + [d.path] && ps[..|before|] == before && ps[..|before| + 1] == ps;
        PathsOfSnoc(ps, |before|);
        forall i | 0 <= i < |before|
          ensures before[i] != d.path
        {
          assert before[i] in PathsOf(before);
        }
        assert Extraneous(EntryPaths(es), S, D, true) == Extraneous(EntryPaths(front), S, D, true) + {d.path};
      } else {
        assert ps == before + [] == before;
        assert Extraneous(EntryPaths(es), S, D, true) == Extraneous(EntryPaths(front), S, D, true);
      }
    }
  }

  /** The directories to delete: each extraneous one once, deepest first. */
  lemma DeepestFirstMeans(es: seq<Entry>, S: Tree, D: Tree)
    requires Reports(es, D)
    ensures var ps := DeepestFirst(es, Indexed(S));
            && Keyed(ps, Id) && Sorted(ps, Shallowness)
            && PathsOf(ps) == Extraneous(EntryPaths(es), S, D, true)
  {
    hide SortBy, DirDeletes, Extraneous;
    var ps, raw := DeepestFirst(es, Indexed(S)), DirDeletes(es, Indexed(S));
    SortBySorts(raw, Shallowness);
    DirDeletesMean(es, S, D);
    ShuffledKeyed(raw, ps, Id);
    forall p
      ensures p in PathsOf(ps) <==> p in PathsOf(raw)
    {
      SameMembers(raw, ps, p);
      InPathsOf(raw, p);
      InPathsOf(ps, p);
    }
  }

  lemma InPathsOf(ps: seq<Path>, p: Path)
    ensures p in PathsOf(ps) <==> p in ps
  {
    if p in ps {
      var i :| 0 <= i < |ps| && ps[i] == p;
      assert ps[i] in PathsOf(ps);
    }
  }

  lemma DirDeletesPlan(es: seq<Entry>, S: Tree, D: Tree, c: Config)
    requires Reports(es, D) && c.delete
    ensures Plans(DeletesOf(DeepestFirst(es, Indexed(S))), S, D, c, Extraneous(EntryPaths(es), S, D, true))
  {
    hide DeepestFirst;
    var ps := DeepestFirst(es, Indexed(S));
    var actions := DeletesOf(ps);
    DeepestFirstMeans(es, S, D);
    forall i | 0 <= i < |ps|
      ensures actions[i].path == ps[i] && ps[i] in PathsOf(ps)
    {
    }
    forall i, j | 0 <= i < j < |actions|
      ensures ActionPath(actions[i]) != ActionPath(actions[j])
    {
      assert Id(ps[i]) != Id(ps[j]);
    }
    forall p | p in PathsOf(ps)
      ensures p in ActionPaths(actions)
    {
      var i :| 0 <= i < |ps| && ps[i] == p;
      assert actions[i].path == p;
    }
  }

  lemma ListsAll(es: seq<Entry>, t: Tree)
    requires Lists(es, t)
    ensures EntryPaths(es) == t.Keys
  {
    forall p | p in t
      ensures p in EntryPaths(es)
    {
      var i :| 0 <= i < |es| && es[i] == EntryOf(p, t[p]);
      assert es[i].path == p;
    }
  }

  /** Every path of either side gets the action planned for it, once, whatever the
      order of the listings. */
  lemma PlanMeans(src: seq<Entry>, dst: seq<Entry>, S: Tree, D: Tree, c: Config)
    requires Lists(src, S) && Lists(dst, D)
    ensures Plans(Plan(src, dst, c), S, D, c, S.Keys + D.Keys)
  {
    hide Plans, SourceActions, FileDeletes, DeepestFirst, Index, Indexed;
    ListsAll(src, S);
    ListsAll(dst, D);
    IndexOfListing(src, S);
    IndexOfListing(dst, D);
    SourcePlans(src, S, D, c);
    var a := SourceActions(src, Index(dst), c);
    if c.delete {
      var fs, ds := FileDeletes(dst, Index(src)), DeletesOf(DeepestFirst(dst, Index(src)));
      var fp, dp := Extraneous(D.Keys, S, D, false), Extraneous(D.Keys, S, D, true);
      FileDeletesPlan(dst, S, D, c);
      DirDeletesPlan(dst, S, D, c);
      PlansBoth(fs, ds, S, D, c, fp, dp);
      PlansBoth(a, fs + ds, S, D, c, S.Keys, fp + dp);
      assert S.Keys + (fp + dp) == S.Keys + D.Keys;
    } else {
      assert Plan(src, dst, c) == a + [] == a;
      PlansMore(a, S, D, c);
    }
  }

  lemma PlansMore(a: seq<Action>, S: Tree, D: Tree, c: Config)
    requires Plans(a, S, D, c, S.Keys) && !c.delete
    ensures Plans(a, S, D, c, S.Keys + D.Keys)
  {
  }

  /** A delete carries the size listed for a file, and none for a directory. */
  lemma {:induction false} FileDeletesCarry(dst: seq<Entry>, src: map<Path, Entry>, a: Action)
    ensures a in FileDeletes(dst, src) <==>
              exists d :: d in dst && !d.isDir && d.path !in src && a == Action(Delete, d.path, None, d.size)
  {
    if dst != [] {
      var n := |dst| - 1;
      FileDeletesCarry(dst[..n], src, a);
      assert forall d :: d in dst <==> d in dst[..n] || d == dst[n];
    }
  }

  // ---- The plan's parts --------------------------------------------------------------------

  function MkdirSet(S: Tree, D: Tree): set<Path> {
    set p | p in S && S[p].Dir? && p !in D
  }

  function CopySet(S: Tree, D: Tree, c: Config): set<Path> {
    set p | p in S && Copies(S, D, c, p)
  }

  function SkipSet(S: Tree, D: Tree, c: Config): set<Path> {
    set p | p in S && S[p].File? && !Copies(S, D, c, p)
  }

  function DeleteSet(S: Tree, D: Tree, c: Config): set<Path> {
    set p | p in D && p !in S && c.delete
  }

  /** The part of `actions` that concerns the paths `want`. */
  lemma {:induction false} PartOfPlan(actions: seq<Action>, S: Tree, D: Tree, c: Config, keep: Action -> bool,
                                      want: set<Path>)
    requires Plans(actions, S, D, c, S.Keys + D.Keys)
    requires forall i :: 0 <= i < |actions| ==> (keep(actions[i]) <==> actions[i].path in want)
    requires forall p :: p in want ==> p in S.Keys + D.Keys && Planned(S, D, c, p).Some?
    ensures Keyed(Filter(actions, keep), ActionPath) && ActionPaths(Filter(actions, keep)) == want
  {
    hide Planned;
    var part := Filter(actions, keep);
    FilterMembers(actions, keep);
    FilterKeyed(actions, keep, ActionPath);
    forall p | p in ActionPaths(part)
      ensures p in want
    {
      var i :| 0 <= i < |part| && part[i].path == p;
      assert part[i] in part && part[i] in actions;
    }
    forall p | p in want
      ensures p in ActionPaths(part)
    {
      var i :| 0 <= i < |actions| && actions[i].path == p;
      assert actions[i] in part;
      var j :| 0 <= j < |part| && part[j] == actions[i];
      assert part[j].path == p;
    }
  }

  /** Another order of the same actions. */
  lemma Reordered(a: seq<Action>, b: seq<Action>)
    requires Keyed(a, ActionPath) && multiset(a) == multiset(b)
    ensures Keyed(b, ActionPath) && ActionPaths(b) == ActionPaths(a) && |b| == |a|
  {
    ShuffledKeyed(a, b, ActionPath);
    forall p
      ensures p in ActionPaths(a) <==> p in ActionPaths(b)
    {
      if p in ActionPaths(a) {
        InOther(a, b, p);
      }
      if p in ActionPaths(b) {
        InOther(b, a, p);
      }
    }
    assert |multiset(a)| == |a| && |multiset(b)| == |b|;
  }

  lemma InOther(a: seq<Action>, b: seq<Action>, p: Path)
    requires multiset(a) == multiset(b) && p in ActionPaths(a)
    ensures p in ActionPaths(b)
  {
    var i :| 0 <= i < |a| && a[i].path == p;
    SameMembers(a, b, a[i]);
    var j :| 0 <= j < |b| && b[j] == a[i];
    assert b[j].path == p;
  }

  lemma ActionPathsSnoc(s: seq<Action>, i: nat)
    requires i < |s|
    ensures ActionPaths(s[..i + 1]) == ActionPaths(s[..i]) + {s[i].path}
    ensures s[i].path in ActionPaths(s)
    ensures Keyed(s, ActionPath) ==> s[i].path !in ActionPaths(s[..i])
  {
    var u, v := s[..i + 1], s[..i];
    assert forall j :: 0 <= j < i ==> u[j] == s[j] && v[j] == s[j];
    assert u[i] == s[i];
    forall p
      ensures p in ActionPaths(u) <==> p in ActionPaths(v) + {s[i].path}
    {
      if p in ActionPaths(v) {
        var j :| 0 <= j < |v| && v[j].path == p;
        assert u[j].path == p;
      }
      if p in ActionPaths(u) && p != s[i].path {
        var j :| 0 <= j < |u| && u[j].path == p;
        assert v[j].path == p;
      }
      assert u[i].path in ActionPaths(u);
    }
    if Keyed(s, ActionPath) {
      forall j | 0 <= j < i
        ensures v[j].path != s[i].path
      {
        assert ActionPath(s[j]) != ActionPath(s[i]);
      }
    }
  }

  /** As many actions as paths. */
  lemma {:induction false} OneActionEach(s: seq<Action>)
    requires Keyed(s, ActionPath)
    ensures |s| == |ActionPaths(s)|
  {
    if s == [] {
      assert ActionPaths(s) == {};
    } else {
      var n := |s| - 1;
      OneActionEach(s[..n]);
      ActionPathsSnoc(s, n);
      assert s[..n + 1] == s;
    }
  }

  /** The directory deletes of a plan stand in it deepest first. */
  lemma {:induction false} DirDeletesSorted(src: seq<Entry>, dst: seq<Entry>, S: Tree, D: Tree, c: Config,
                                            keep: Action -> bool)
    requires Lists(src, S) && Lists(dst, D) && c.delete
    requires forall a: Action :: keep(a) <==> a.path in PathsOf(DeepestFirst(dst, Index(src)))
    ensures Filter(Plan(src, dst, c), keep) == DeletesOf(DeepestFirst(dst, Index(src)))
    ensures Sorted(DeepestFirst(dst, Index(src)), Shallowness)
    ensures PathsOf(DeepestFirst(dst, Index(src))) == Extraneous(D.Keys, S, D, true)
  {
    hide SourceActions, FileDeletes, DeepestFirst, Index, Indexed, Planned, PathsOf;
    ListsAll(src, S);
    ListsAll(dst, D);
    IndexOfListing(src, S);
    IndexOfListing(dst, D);
    DeepestFirstMeans(dst, S, D);
    SourcePlans(src, S, D, c);
    FileDeletesPlan(dst, S, D, c);
    var ps := DeepestFirst(dst, Index(src));
    var a, f, d := SourceActions(src, Index(dst), c), FileDeletes(dst, Index(src)), DeletesOf(ps);
    FilterAppend(a, f + d, keep);
    FilterAppend(f, d, keep);
    FilterNone(a, keep);
    FilterNone(f, keep);
    forall i | 0 <= i < |d|
      ensures keep(d[i])
    {
      InPathsOf(ps, ps[i]);
    }
    FilterAll(d, keep);
  }
}
