/** What each option of a sync means for a single path, entry by entry and for the
    destination as a whole. */
module SyncOptions {
  import opened Bytes
  import opened SyncPlan
  import opened SyncMeaning
  import opened Sync
  import Times

  /** A path the filter drops, or a reported size below the one bound or above the other. */
  predicate FilteredOut(p: Path, size: Option<nat>, c: Config) {
    || !c.keep(p)
    || (size.Some? && c.minSize.Some? && size.value < c.minSize.value)
    || (size.Some? && c.maxSize.Some? && size.value > c.maxSize.value)
  }

  /** The size a listing reports of a file. */
  function Reported(n: Node): Option<nat>
    requires n.File?
  {
    if n.sized then Some(|n.bytes|) else None
  }

  /** Sizes differ, one side reporting none included; or times are compared, and one is
      missing or they differ. */
  predicate Differs(size: Option<nat>, mtime: Option<string>, size': Option<nat>, mtime': Option<string>, c: Config) {
    size != size' || (c.compare == ModTime && (mtime == None || mtime' == None || mtime != mtime'))
  }

  /** Both sides have a time and the source's is no later, as strings. */
  predicate NoNewer(mtime: Option<string>, mtime': Option<string>) {
    mtime.Some? && mtime'.Some? && (mtime == mtime' || Earlier(mtime.value, mtime'.value))
  }

  /** `s` sorts before `t`: it ends first, or has the smaller character where they part. */
  predicate Earlier(s: string, t: string) {
    exists k :: 0 <= k <= |s| && k < |t| && s[..k] == t[..k] && (k == |s| || s[k] < t[k])
  }

  lemma {:induction false} EarlierIsLess(s: string, t: string)
    ensures Times.LexLe(s, t) <==> s == t || Earlier(s, t)
  {
    if s != [] && t != [] && s[0] == t[0] {
      EarlierIsLess(s[1..], t[1..]);
      if Earlier(s, t) {
        EarlierRest(s, t);
      }
      if Earlier(s[1..], t[1..]) {
        EarlierMore(s, t);
      }
      assert s == [s[0]] + s[1..] && t == [t[0]] + t[1..];
    } else if s != [] && t != [] {
      forall k | 0 < k <= |s| && k <= |t|
        ensures s[..k] != t[..k]
      {
        assert s[..k][0] != t[..k][0];
      }
      assert s[..0] == t[..0];
    } else {
      assert s[..0] == t[..0];
    }
  }

  lemma EarlierRest(s: string, t: string)
    requires s != [] && t != [] && s[0] == t[0] && Earlier(s, t)
    ensures Earlier(s[1..], t[1..])
  {
    var k :| 0 <= k <= |s| && k < |t| && s[..k] == t[..k] && (k == |s| || s[k] < t[k]);
    assert s[1..][..k - 1] == s[..k][1..] == t[..k][1..] == t[1..][..k - 1];
  }

  lemma EarlierMore(s: string, t: string)
    requires s != [] && t != [] && s[0] == t[0] && Earlier(s[1..], t[1..])
    ensures Earlier(s, t)
  {
    var s', t' := s[1..], t[1..];
    var k :| 0 <= k <= |s'| && k < |t'| && s'[..k] == t'[..k] && (k == |s'| || s'[k] < t'[k]);
    assert s[..k + 1] == [s[0]] + s'[..k] == t[..k + 1];
  }

  // ---- One entry of the source -----------------------------------------------------------------

  /** The one action for a source file: skipped if filtered out, whatever the destination has;
      else copied if it is missing there; else copied exactly if it differs and, with update,
      is not known to be no newer. */
  lemma FileDecision(e: Entry, dst: map<Path, Entry>, c: Config)
    requires !e.isDir
    ensures FilteredOut(e.path, e.size, c) ==> Decide(e, dst, c) == [Action(Skip, e.path, e.size, None)]
    ensures !FilteredOut(e.path, e.size, c) && e.path !in dst ==>
              Decide(e, dst, c) == [Action(Copy, e.path, e.size, None)]
    ensures !FilteredOut(e.path, e.size, c) && e.path in dst ==>
              var d := dst[e.path];
              var copied := Differs(e.size, e.mtime, d.size, d.mtime, c) && !(c.update && NoNewer(e.mtime, d.mtime));
              Decide(e, dst, c) == [Action(if copied then Copy else Skip, e.path, e.size, d.size)]
  {
    hide Times.LexLe, Earlier;
    if e.path in dst && e.mtime.Some? && dst[e.path].mtime.Some? {
      EarlierIsLess(e.mtime.value, dst[e.path].mtime.value);
    }
  }

  /** Directories are made whatever the filter and the bounds. */
  lemma DirDecision(e: Entry, dst: map<Path, Entry>, c: Config)
    requires e.isDir
    ensures Decide(e, dst, c) == if e.path in dst then [] else [Action(Mkdir, e.path, None, None)]
  {
  }

  // ---- The destination afterwards ----------------------------------------------------------------

  /** A source file that is filtered out is planned to be skipped, and the destination has at
      its path what it had. */
  lemma FilteredStays(S: Tree, T: Tree, L: nat, c: Config, stamp: Path -> Stamp, p: Path)
    requires p in S && S[p].File? && FilteredOut(p, Reported(S[p]), c)
    ensures Planned(S, Top(T, L), c, p) == Some(Skip)
    ensures SameAt(T, Outcome(S, T, L, c, stamp), p)
  {
  }

  /** One that passes and that the destination lacks is planned to be copied, and there with
      the source's bytes afterwards. */
  lemma MissingArrives(S: Tree, T: Tree, L: nat, c: Config, stamp: Path -> Stamp, p: Path)
    requires p in S && S[p].File? && !FilteredOut(p, Reported(S[p]), c) && p !in T
    ensures Planned(S, Top(T, L), c, p) == Some(Copy)
    ensures var o := Outcome(S, T, L, c, stamp); p in o && o[p].File? && o[p].bytes == S[p].bytes
  {
  }

  /** One that passes over a file that was listed: replaced exactly if it differs and, with
      update, is not known to be no newer; otherwise left alone. */
  lemma PresentIsReplaced(S: Tree, T: Tree, L: nat, c: Config, stamp: Path -> Stamp, p: Path)
    requires p in S && S[p].File? && !FilteredOut(p, Reported(S[p]), c)
    requires p in T && |p| <= L && T[p].File?
    ensures var s, t, o := S[p], T[p], Outcome(S, T, L, c, stamp);
            p in o && o[p] ==
              if Differs(Reported(s), s.mtime, Reported(t), t.mtime, c) && !(c.update && NoNewer(s.mtime, t.mtime))
              then File(s.bytes, stamp(p).mtime, stamp(p).sized) else t
  {
    hide Times.LexLe, Earlier;
    if S[p].mtime.Some? && T[p].mtime.Some? {
      EarlierIsLess(S[p].mtime.value, T[p].mtime.value);
    }
  }

  /** What the source lacks: without delete all of it stays; with delete exactly what was too
      deep to be listed, the filter and the bounds notwithstanding. */
  lemma ExtraneousGoes(S: Tree, T: Tree, L: nat, c: Config, stamp: Path -> Stamp, p: Path)
    requires p !in S
    ensures var o := Outcome(S, T, L, c, stamp);
            if p in T && (|p| > L || !c.delete) then p in o && o[p] == T[p] else p !in o
  {
  }

  /** The source's directories are there afterwards, all of them. */
  lemma DirsArrive(S: Tree, T: Tree, L: nat, c: Config, stamp: Path -> Stamp, p: Path)
    requires p in S && S[p].Dir?
    ensures var o := Outcome(S, T, L, c, stamp); p in o && o[p].Dir?
  {
  }
}
