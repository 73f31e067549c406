/** The include and exclude patterns of a sync, on top of the glob matcher. */
module SyncFilter {
  import Glob
  import opened Bytes
  import Lister
  import SyncPlan
  import SyncOptions

  datatype Filter = Filter(includes: seq<string>, excludes: seq<string>)

  predicate EndsWith(s: string, t: string) {
    |t| <= |s| && s[|s| - |t|..] == t
  }

  /** A pattern that begins `*.`, or with a dot and has neither slash nor star, is an
      extension: the text behind the star is compared as it stands. */
  predicate IsExtension(pat: string) {
    "*." <= pat || ("." <= pat && '/' !in pat && '*' !in pat)
  }

  predicate Accepts(pat: string, path: string) {
    if IsExtension(pat) then EndsWith(path, if pat[0] == '*' then pat[1..] else pat)
    else Glob.Matches(Glob.Cut(pat), path)
  }

  /** What the filter lets through. */
  predicate Keeps(f: Filter, path: string) {
    && (forall x :: x in f.excludes ==> !Accepts(x, path))
    && (f.includes == [] || exists x :: x in f.includes && Accepts(x, path))
  }

  // ---- The code -----------------------------------------------------------------------------

  /** `GlobPattern::matches`. */
  method PatternMatches(pat: string, path: string) returns (r: bool)
    ensures r <==> Accepts(pat, path)
  {
    if "*." <= pat {
      assert pat[0] == '*' && "." + pat[2..] == pat[1..];
      return EndsWith(path, "." + pat[2..]);
    }
    if "." <= pat && '/' !in pat && '*' !in pat {
      return EndsWith(path, pat);
    }
    r := Glob.GlobMatch(pat, path);
    Glob.MatchesIffReads(Glob.Cut(pat), path);
    assert r <==> Glob.Matches(Glob.Cut(pat), path);
    assert !IsExtension(pat);
  }

  /** `Filter::matches`. */
  method FilterMatches(f: Filter, path: string) returns (r: bool)
    ensures r <==> Keeps(f, path)
  {
    for i := 0 to |f.excludes|
      invariant forall j :: 0 <= j < i ==> !Accepts(f.excludes[j], path)
    {
      var hit := PatternMatches(f.excludes[i], path);
      if hit {
        return false;
      }
    }
    if f.includes != [] {
      for i := 0 to |f.includes|
        invariant forall j :: 0 <= j < i ==> !Accepts(f.includes[j], path)
      {
        var hit := PatternMatches(f.includes[i], path);
        if hit {
          return true;
        }
      }
      return false;
    }
    r := true;
  }

  // ---- What it means -------------------------------------------------------------------------

  /** The last name of a path. */
  function LastName(path: string): (name: string)
    ensures '/' !in name && EndsWith(path, name)
    ensures |name| < |path| ==> path[|path| - |name| - 1] == '/'
  {
    if path == [] || path[|path| - 1] == '/' then []
    else LastName(path[..|path| - 1]) + [path[|path| - 1]]
  }

  lemma {:induction false} EndOfLastName(path: string, t: string)
    requires '/' !in t
    ensures EndsWith(path, t) <==> EndsWith(LastName(path), t)
  {
    var name := LastName(path);
    var d := |path| - |name|;
    assert path[d..] == name;
    if EndsWith(path, t) {
      EndHasNoSlash(path, t, d);
    }
    if |t| <= |name| {
      SameEnd(path, d, |t|);
    }
  }

  /** A slash lies before an end without one. */
  lemma EndHasNoSlash(path: string, t: string, d: nat)
    requires EndsWith(path, t) && '/' !in t && d <= |path| && (d > 0 ==> path[d - 1] == '/')
    ensures |t| <= |path| - d
  {
    assert forall i :: |path| - |t| <= i < |path| ==> path[i] == t[i - (|path| - |t|)] != '/';
  }

  lemma SameEnd(s: string, d: nat, n: nat)
    requires d <= |s| && n <= |s| - d
    ensures s[d..][|s| - d - n..] == s[|s| - n..]
  {
  }

  /** An extension pattern is the glob it is written as, on the last name alone, so it reaches
      into every folder. The glob itself would not leave the root. */
  lemma {:induction false} ExtensionReachesDown(ext: string, path: string)
    requires Glob.Plain(ext) && '/' !in ext
    ensures Accepts("*." + ext, path) <==> Glob.Matches(Glob.Cut("*." + ext), LastName(path))
    ensures Glob.Matches(Glob.Cut("*." + ext), path) <==> Accepts("*." + ext, path) && '/' !in path
  {
    var t := "." + ext;
    var pat := "*." + ext;
    assert pat == [] + "*" + t && pat[1..] == t && pat[0] == '*' && "*." <= pat;
    StarEnd(t, path);
    StarEnd(t, LastName(path));
    EndOfLastName(path, t);
  }

  lemma {:induction false} StarEnd(t: string, s: string)
    requires Glob.Plain(t) && '/' !in t
    ensures Glob.Matches(Glob.Cut([] + "*" + t), s) <==> EndsWith(s, t) && '/' !in s
  {
    Glob.StarMeans([], t, s);
    if EndsWith(s, t) && '/' !in s {
      assert [] + s[..|s| - |t|] + t == s;
    }
    if m :| [] + m + t == s && '/' !in m {
      assert s[|s| - |t|..] == t;
    }
  }

  /** A star behind `*.` is no wildcard. */
  lemma ExtensionIsLiteral(rest: string, path: string)
    ensures Accepts("*." + rest, path) <==> exists d :: path == d + "." + rest
  {
    var t := "." + rest;
    assert ("*." + rest)[1..] == t && "*." <= "*." + rest;
    if EndsWith(path, t) {
      assert path == path[..|path| - |t|] + "." + rest;
    }
    if d :| path == d + "." + rest {
      assert path[|path| - |t|..] == t;
    }
  }

  /** A file that an exclude accepts, or that none of the includes accepts when there are any,
      is skipped; with neither, the filter alone keeps nothing back. */
  lemma FilterDecides(f: Filter, e: SyncPlan.Entry, dst: map<SyncPlan.Path, SyncPlan.Entry>, c: SyncPlan.Config)
    requires !e.isDir && forall p :: c.keep(p) <==> Keeps(f, Lister.Join([], p))
    ensures var path := Lister.Join([], e.path);
            && ((exists x :: x in f.excludes && Accepts(x, path))
                || (f.includes != [] && forall x :: x in f.includes ==> !Accepts(x, path)) ==>
                  SyncPlan.Decide(e, dst, c) == [SyncPlan.Action(SyncPlan.Skip, e.path, e.size, None)])
            && ((forall x :: x in f.excludes ==> !Accepts(x, path))
                && (f.includes == [] || exists x :: x in f.includes && Accepts(x, path))
                && c.minSize == None && c.maxSize == None && e.path !in dst ==>
                  SyncPlan.Decide(e, dst, c) == [SyncPlan.Action(SyncPlan.Copy, e.path, e.size, None)])
  {
    hide SyncPlan.Decide, Accepts;
    assert c.keep(e.path) <==> Keeps(f, Lister.Join([], e.path));
    SyncOptions.FileDecision(e, dst, c);
  }
}
