/** Relative manifest paths (`/`-separated UTF-8 byte strings) and their validation. */
module Paths {
  import opened Bytes

  type Path = seq<byte>

  const SLASH: byte := 0x2F
  const BACKSLASH: byte := 0x5C
  const COLON: byte := 0x3A
  const DOT: Path := [0x2E]
  const DOT_DOT: Path := [0x2E, 0x2E]

  /** `path.split('/')`: one component more than there are slashes. */
  function Split(p: Path): (cs: seq<Path>)
    ensures |cs| > 0
  {
    if p == [] then [[]]
    else
      var rest := Split(p[1..]);
      if p[0] == SLASH then [[]] + rest else [[p[0]] + rest[0]] + rest[1..]
  }

  predicate ComponentOk(c: Path) {
    c != [] && c != DOT && c != DOT_DOT && BACKSLASH !in c
  }

  /** `validate_rel_path(path).is_ok()`. */
  predicate SafePath(p: Path) {
    && p != []
    && p[0] != SLASH && p[0] != BACKSLASH
    && !(|p| >= 2 && p[1] == COLON)
    && forall i :: 0 <= i < |Split(p)| ==> ComponentOk(Split(p)[i])
  }

  /** Walking `cs` down from `at`, the way an operating system resolves a path. */
  function Resolve(at: seq<Path>, cs: seq<Path>): seq<Path>
    decreases |cs|
  {
    if cs == [] then at
    else if cs[0] == DOT || cs[0] == [] then Resolve(at, cs[1..])
    else if cs[0] == DOT_DOT then Resolve(if at == [] then [] else at[..|at| - 1], cs[1..])
    else Resolve(at + [cs[0]], cs[1..])
  }

  lemma {:induction false} PlainComponentsDescend(at: seq<Path>, cs: seq<Path>)
    requires forall i :: 0 <= i < |cs| ==> ComponentOk(cs[i])
    ensures Resolve(at, cs) == at + cs
    decreases |cs|
  {
    if cs != [] {
      PlainComponentsDescend(at + [cs[0]], cs[1..]);
      assert at + [cs[0]] + cs[1..] == at + cs;
    }
  }

  /** `safe_join`: a validated path resolves to a place strictly below the root it is
      joined to, and to the components it spells. */
  lemma {:induction false} SafePathStaysInside(root: seq<Path>, p: Path)
    requires SafePath(p)
    ensures Resolve(root, Split(p)) == root + Split(p) && root < Resolve(root, Split(p))
  {
    PlainComponentsDescend(root, Split(p));
  }

  // ---- Ancestors and order -----------------------------------------------------------------

  /** `p` names a directory on the way to `q`. */
  predicate Above(p: Path, q: Path) {
    |p| < |q| && p == q[..|p|] && q[|p|] == SLASH
  }

  /** The byte order `sort_by` uses on paths. */
  predicate Less(p: Path, q: Path) {
    if p == [] then q != []
    else q != [] && (p[0] < q[0] || (p[0] == q[0] && Less(p[1..], q[1..])))
  }

  lemma {:induction false} LessTrichotomy(p: Path, q: Path)
    ensures !(Less(p, q) && Less(q, p))
    ensures p == q <==> !Less(p, q) && !Less(q, p)
  {
    if p != [] && q != [] {
      LessTrichotomy(p[1..], q[1..]);
      assert p == [p[0]] + p[1..] && q == [q[0]] + q[1..];
    }
  }

  lemma {:induction false} PrefixLess(p: Path, q: Path)
    requires p < q
    ensures Less(p, q)
  {
    if p != [] {
      PrefixLess(p[1..], q[1..]);
    }
  }

  /** `p` comes first: it ends first, or has the smaller byte where they part. */
  predicate Before(p: Path, q: Path) {
    exists k :: 0 <= k <= |p| && k < |q| && p[..k] == q[..k] && (k == |p| || p[k] < q[k])
  }

  lemma {:induction false} LessMeans(p: Path, q: Path)
    ensures Less(p, q) <==> Before(p, q)
  {
    if p != [] && q != [] && p[0] == q[0] {
      LessMeans(p[1..], q[1..]);
      if Before(p, q) {
        var k :| 0 <= k <= |p| && k < |q| && p[..k] == q[..k] && (k == |p| || p[k] < q[k]);
        BeforeRest(p, q, k);
      }
      if Before(p[1..], q[1..]) {
        BeforeMore(p, q);
      }
    } else if p != [] && q != [] {
      forall k | 0 < k <= |p| && k <= |q|
        ensures p[..k] != q[..k]
      {
        assert p[..k][0] != q[..k][0];
      }
      assert p[..0] == q[..0];
    } else {
      assert p[..0] == q[..0];
    }
  }

  lemma BeforeRest(p: Path, q: Path, k: nat)
    requires 0 < k <= |p| && k < |q| && p[..k] == q[..k] && (k == |p| || p[k] < q[k])
    ensures Before(p[1..], q[1..])
  {
    assert p[1..][..k - 1] == p[..k][1..] == q[..k][1..] == q[1..][..k - 1];
  }

  lemma BeforeMore(p: Path, q: Path)
    requires p != [] && q != [] && p[0] == q[0] && Before(p[1..], q[1..])
    ensures Before(p, q)
  {
    var p', q' := p[1..], q[1..];
    var k :| 0 <= k <= |p'| && k < |q'| && p'[..k] == q'[..k] && (k == |p'| || p'[k] < q'[k]);
    assert p[..k + 1] == [p[0]] + p'[..k] == q[..k + 1];
  }

  // ---- Which paths validate --------------------------------------------------------------------

  function Joined(cs: seq<Path>): Path
    requires cs != []
  {
    if |cs| == 1 then cs[0] else cs[0] + [SLASH] + Joined(cs[1..])
  }

  lemma {:induction false} SplitFront(c: Path, rest: Path)
    requires SLASH !in c
    ensures Split(c) == [c] && Split(c + [SLASH] + rest) == [c] + Split(rest)
  {
    var all := c + [SLASH] + rest;
    if c == [] {
      assert all[1..] == rest;
    } else {
      SplitFront(c[1..], rest);
      assert all[1..] == c[1..] + [SLASH] + rest && c == [c[0]] + c[1..];
    }
  }

  lemma {:induction false} SplitJoined(cs: seq<Path>)
    requires cs != [] && forall c :: c in cs ==> SLASH !in c
    ensures Split(Joined(cs)) == cs
  {
    if |cs| == 1 {
      SplitFront(cs[0], []);
    } else {
      SplitFront(cs[0], Joined(cs[1..]));
      hide Split;
      SplitJoined(cs[1..]);
    }
  }

  lemma {:induction false} JoinedSplit(p: Path)
    ensures Joined(Split(p)) == p && forall c :: c in Split(p) ==> SLASH !in c
  {
    if p != [] {
      JoinedSplit(p[1..]);
      var rest := Split(p[1..]);
      if p[0] == SLASH {
        assert Split(p)[1..] == rest;
      } else {
        assert Split(p)[1..] == rest[1..];
      }
      assert p == [p[0]] + p[1..];
    }
  }

  lemma {:induction false} JoinedFront(cs: seq<Path>)
    requires cs != []
    ensures cs[0] <= Joined(cs)
  {
  }

  /** A path, written as its components with slashes between them, validates exactly if no
      component is empty, one dot or two dots, none has a backslash in it, and the second
      byte is not a colon. */
  lemma {:induction false} SafeExactly(cs: seq<Path>)
    requires cs != [] && forall c :: c in cs ==> 0x2F !in c
    ensures var p := Joined(cs);
            SafePath(p) <==>
              (forall c :: c in cs ==> c != [] && c != [0x2E] && c != [0x2E, 0x2E] && 0x5C !in c)
              && (|p| >= 2 ==> p[1] != 0x3A)
  {
    var p := Joined(cs);
    SplitJoined(cs);
    JoinedFront(cs);
    assert cs[0] in cs;
    hide Joined, Split;
    if forall c :: c in cs ==> c != [] && c != [0x2E] && c != [0x2E, 0x2E] && 0x5C !in c {
      assert cs[0] != [] && p[0] == cs[0][0] && cs[0][0] in cs[0];
      assert forall i :: 0 <= i < |cs| ==> cs[i] in cs;
    }
  }
}
