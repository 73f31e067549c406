/** The backtracking glob matcher of the sync filters, against a declarative reading of
    patterns: which ways of cutting the text into segments a pattern allows. */
module Glob {

  /** A pattern cut left to right. `**` takes a slash that follows it along. */
  datatype Token = DoubleStar(slash: bool) | Star | Any | Lit(c: char)

  function Cut(pat: string): seq<Token> {
    if pat == [] then []
    else if |pat| > 1 && pat[0] == '*' && pat[1] == '*' then
      if |pat| > 2 && pat[2] == '/' then [DoubleStar(true)] + Cut(pat[3..])
      else [DoubleStar(false)] + Cut(pat[2..])
    else [if pat[0] == '*' then Star else if pat[0] == '?' then Any else Lit(pat[0])] + Cut(pat[1..])
  }

  /** The segments a token stands for. */
  predicate Allows(t: Token, seg: string) {
    match t
    case DoubleStar(_) => true
    case Star => '/' !in seg
    case Any => |seg| == 1 && seg[0] != '/'
    case Lit(c) => seg == [c]
  }

  /** Tokens written with `*` characters only: all that may be left over when the text ends. */
  predicate StarOnly(ts: seq<Token>) {
    forall i :: 0 <= i < |ts| ==> ts[i] == Star || ts[i] == DoubleStar(false)
  }

  function Concat(segs: seq<string>): string {
    if segs == [] then [] else segs[0] + Concat(segs[1..])
  }

  /** `segs` cuts the text along the first tokens of the pattern. A token takes part only
      while text is left, so the last segment is not empty. */
  predicate Reads(ts: seq<Token>, txt: string, segs: seq<string>) {
    && |segs| <= |ts| && Concat(segs) == txt
    && (forall i :: 0 <= i < |segs| ==> Allows(ts[i], segs[i]))
    && (segs != [] ==> segs[|segs| - 1] != [])
    && StarOnly(ts[|segs|..])
  }

  // ---- The recursion of the matcher --------------------------------------------------

  predicate Matches(ts: seq<Token>, txt: string)
    decreases |ts|
  {
    if txt == [] then StarOnly(ts)
    else if ts == [] then false
    else exists i :: 0 <= i <= |txt| && Allows(ts[0], txt[..i]) && Matches(ts[1..], txt[i..])
  }

  lemma ReadsFront(ts: seq<Token>, txt: string, segs: seq<string>)
    requires segs != [] && Reads(ts, txt, segs)
    ensures |segs[0]| <= |txt| && txt[..|segs[0]|] == segs[0] && txt != [] && ts != []
    ensures Reads(ts[1..], txt[|segs[0]|..], segs[1..])
  {
    assert txt == segs[0] + Concat(segs[1..]);
    assert ts[1..][|segs| - 1..] == ts[|segs|..];
    LastIsIn(segs);
  }

  lemma {:induction false} LastIsIn(segs: seq<string>)
    requires segs != []
    ensures |Concat(segs)| >= |segs[|segs| - 1]|
  {
    if |segs| > 1 {
      LastIsIn(segs[1..]);
    }
  }

  lemma ReadsCons(ts: seq<Token>, txt: string, i: nat, segs: seq<string>)
    requires ts != [] && txt != [] && i <= |txt| && Allows(ts[0], txt[..i]) && Reads(ts[1..], txt[i..], segs)
    ensures Reads(ts, txt, [txt[..i]] + segs)
  {
    var all := [txt[..i]] + segs;
    assert all[1..] == segs;
    assert txt[..i] + txt[i..] == txt;
    assert ts[1..][|segs|..] == ts[|all|..];
    assert segs == [] ==> txt[i..] == [];
  }

  /** Matching takes a segment off the text and a token off the pattern. */
  lemma MatchesFront(ts: seq<Token>, txt: string) returns (i: nat)
    requires Matches(ts, txt) && txt != []
    ensures ts != [] && i <= |txt| && Allows(ts[0], txt[..i]) && Matches(ts[1..], txt[i..])
  {
    i :| 0 <= i <= |txt| && Allows(ts[0], txt[..i]) && Matches(ts[1..], txt[i..]);
  }

  lemma {:induction false} MatchesCons(ts: seq<Token>, txt: string, i: nat)
    requires ts != [] && txt != [] && i <= |txt| && Allows(ts[0], txt[..i]) && Matches(ts[1..], txt[i..])
    ensures Matches(ts, txt)
  {
  }

  lemma {:induction false} MatchesNothing(ts: seq<Token>)
    ensures Matches(ts, []) <==> StarOnly(ts)
  {
  }

  /** Reading no segment: the end of the text, and only stars left. */
  lemma ReadsNothing(ts: seq<Token>, txt: string)
    ensures Reads(ts, txt, []) <==> txt == [] && StarOnly(ts)
  {
    var none: seq<string> := [];
    assert ts[|none|..] == ts;
  }

  lemma ReadsAllowed(ts: seq<Token>, txt: string, segs: seq<string>)
    requires segs != [] && Reads(ts, txt, segs) && ts != []
    ensures Allows(ts[0], segs[0])
  {
  }

  /** The matcher accepts exactly the texts the pattern reads. */
  lemma {:induction false} MatchesIffReads(ts: seq<Token>, txt: string)
    ensures Matches(ts, txt) <==> exists segs :: Reads(ts, txt, segs)
    decreases |ts|
  {
    hide Matches, Reads, Allows, StarOnly;
    MatchesNothing(ts);
    ReadsNothing(ts, txt);
    if Matches(ts, txt) && txt != [] {
      var i := MatchesFront(ts, txt);
      MatchesIffReads(ts[1..], txt[i..]);
      var segs :| Reads(ts[1..], txt[i..], segs);
      ReadsCons(ts, txt, i, segs);
    }
    forall segs | segs != [] && Reads(ts, txt, segs)
      ensures Matches(ts, txt)
    {
      ReadsFront(ts, txt, segs);
      ReadsAllowed(ts, txt, segs);
      MatchesIffReads(ts[1..], txt[|segs[0]|..]);
      MatchesCons(ts, txt, |segs[0]|);
    }
  }

  // ---- The code ------------------------------------------------------------------------

  /** What is left at the end of the text may only be stars. */
  lemma {:induction false} StarsLeft(pat: string)
    ensures StarOnly(Cut(pat)) <==> forall i :: 0 <= i < |pat| ==> pat[i] == '*'
  {
    if pat != [] {
      var k := if |pat| > 1 && pat[0] == '*' && pat[1] == '*' then
                 (if |pat| > 2 && pat[2] == '/' then 3 else 2) else 1;
      StarsLeft(pat[k..]);
      assert forall i :: k <= i < |pat| ==> pat[i] == pat[k..][i - k];
      var ts := Cut(pat);
      assert ts[1..] == Cut(pat[k..]);
      assert StarOnly(ts) <==> (ts[0] == Star || ts[0] == DoubleStar(false)) && StarOnly(ts[1..]) by {
        assert forall i :: 0 < i < |ts| ==> ts[i] == ts[1..][i - 1];
      }
    }
  }

  /** What the pattern from `pi` says of the text from `ti`. */
  predicate From(pat: string, txt: string, pi: nat, ti: nat)
    requires pi <= |pat| && ti <= |txt|
  {
    Matches(Cut(pat[pi..]), txt[ti..])
  }

  lemma CutAt(pat: string, pi: nat)
    requires pi < |pat|
    ensures var ts := Cut(pat[pi..]);
            if pi + 1 < |pat| && pat[pi] == '*' && pat[pi + 1] == '*' then
              if pi + 2 < |pat| && pat[pi + 2] == '/' then ts == [DoubleStar(true)] + Cut(pat[pi + 3..])
              else ts == [DoubleStar(false)] + Cut(pat[pi + 2..])
            else ts == [if pat[pi] == '*' then Star else if pat[pi] == '?' then Any else Lit(pat[pi])]
                       + Cut(pat[pi + 1..])
  {
    var p := pat[pi..];
    assert p[1..] == pat[pi + 1..];
    assert |p| > 1 ==> p[2..] == pat[pi + 2..];
    assert |p| > 2 ==> p[3..] == pat[pi + 3..];
  }

  lemma TextFrom(txt: string, ti: nat, i: nat)
    requires ti <= i <= |txt|
    ensures txt[ti..][..i - ti] == txt[ti..i] && txt[ti..][i - ti..] == txt[i..]
  {
  }

  /** One token taken at `ti`. */
  lemma FromToken(pat: string, txt: string, pi: nat, ti: nat, t: Token, next: nat)
    requires pi < next <= |pat| && ti < |txt| && Cut(pat[pi..]) == [t] + Cut(pat[next..])
    ensures From(pat, txt, pi, ti) <==>
              exists i :: ti <= i <= |txt| && Allows(t, txt[ti..i]) && From(pat, txt, next, i)
  {
    hide Matches, Allows, Cut;
    var ts, rest := Cut(pat[pi..]), txt[ti..];
    assert ts[0] == t && ts[1..] == Cut(pat[next..]);
    if From(pat, txt, pi, ti) {
      var i := MatchesFront(ts, rest);
      TextFrom(txt, ti, ti + i);
      assert Allows(t, txt[ti..ti + i]) && From(pat, txt, next, ti + i);
    }
    if i :| ti <= i <= |txt| && Allows(t, txt[ti..i]) && From(pat, txt, next, i) {
      TextFrom(txt, ti, i);
      MatchesCons(ts, rest, i - ti);
    }
  }

  /** `glob_match_inner`. */
  method GlobMatchInner(pat: string, txt: string, pi0: nat, ti0: nat) returns (r: bool)
    requires pi0 <= |pat| && ti0 <= |txt|
    ensures r == From(pat, txt, pi0, ti0)
    decreases |pat| - pi0
  {
    hide Matches, Cut;
    var pi, ti := pi0, ti0;
    while pi < |pat| && ti < |txt|
      invariant pi0 <= pi <= |pat| && ti0 <= ti <= |txt|
      invariant From(pat, txt, pi0, ti0) == From(pat, txt, pi, ti)
      decreases |pat| - pi
    {
      CutAt(pat, pi);
      ghost var at := pi;
      if pi + 1 < |pat| && pat[pi] == '*' && pat[pi + 1] == '*' {
        pi := pi + 2;
        if pi < |pat| && pat[pi] == '/' {
          pi := pi + 1;
        }
        FromToken(pat, txt, at, ti, Cut(pat[at..])[0], pi);
        for i := ti to |txt| + 1
          invariant forall j :: ti <= j < i ==> !From(pat, txt, pi, j)
        {
          var here := GlobMatchInner(pat, txt, pi, i);
          if here {
            return true;
          }
        }
        return false;
      } else if pat[pi] == '*' {
        pi := pi + 1;
        FromToken(pat, txt, at, ti, Star, pi);
        for i := ti to |txt| + 1
          invariant '/' !in txt[ti..if i > ti then i - 1 else ti]
          invariant forall j :: ti <= j < i ==> !From(pat, txt, pi, j)
        {
          if i > ti && txt[i - 1] == '/' {
            assert forall j :: i <= j <= |txt| ==> txt[ti..j][i - 1 - ti] == '/';
            return false;
          }
          assert '/' !in txt[ti..i];
          var here := GlobMatchInner(pat, txt, pi, i);
          if here {
            return true;
          }
        }
        return false;
      } else if pat[pi] == '?' {
        FromToken(pat, txt, at, ti, Any, pi + 1);
        if txt[ti] == '/' {
          assert forall j :: ti < j <= |txt| ==> txt[ti..j][0] == '/';
          return false;
        }
        assert Allows(Any, txt[ti..ti + 1]);
        pi := pi + 1;
        ti := ti + 1;
      } else if pat[pi] == txt[ti] {
        FromToken(pat, txt, at, ti, Lit(pat[pi]), pi + 1);
        assert Allows(Lit(pat[pi]), txt[ti..ti + 1]);
        pi := pi + 1;
        ti := ti + 1;
      } else {
        FromToken(pat, txt, at, ti, Lit(pat[pi]), pi + 1);
        assert forall j :: ti < j <= |txt| ==> txt[ti..j][0] == txt[ti];
        return false;
      }
    }
    ghost var end := pi;
    StarsLeft(pat[pi..]);
    FromEnd(pat, txt, pi, ti);
    while pi < |pat| && pat[pi] == '*'
      invariant end <= pi <= |pat|
      invariant forall j :: end <= j < pi ==> pat[j] == '*'
    {
      pi := pi + 1;
    }
    assert pi < |pat| ==> pat[end..][pi - end] != '*';
    r := pi == |pat| && ti == |txt|;
  }

  lemma FromEnd(pat: string, txt: string, pi: nat, ti: nat)
    requires pi <= |pat| && ti <= |txt| && (pi == |pat| || ti == |txt|)
    ensures From(pat, txt, pi, ti) <==> ti == |txt| && StarOnly(Cut(pat[pi..]))
  {
  }

  /** `glob_match`: decides whether some segmentation of the text reads the pattern. */
  method GlobMatch(pattern: string, text: string) returns (r: bool)
    ensures r <==> exists segs :: Reads(Cut(pattern), text, segs)
  {
    r := GlobMatchInner(pattern, text, 0, 0);
    assert pattern[0..] == pattern && text[0..] == text;
    assert r == Matches(Cut(pattern), text);
    MatchesIffReads(Cut(pattern), text);
  }

  // ---- Slashes --------------------------------------------------------------------------

  function Slashes(s: string): nat {
    if s == [] then 0 else (if s[0] == '/' then 1 else 0) + Slashes(s[1..])
  }

  /** The slashes written in a pattern that a text must have. */
  function LitSlashes(ts: seq<Token>): nat {
    if ts == [] then 0 else (if ts[0] == Lit('/') then 1 else 0) + LitSlashes(ts[1..])
  }

  predicate NoDoubleStar(pat: string) {
    pat == [] || (!("**" <= pat) && NoDoubleStar(pat[1..]))
  }

  lemma {:induction false} SlashesAppend(a: string, b: string)
    ensures Slashes(a + b) == Slashes(a) + Slashes(b)
  {
    if a == [] {
      assert a + b == b;
    } else {
      SlashesAppend(a[1..], b);
      assert (a + b)[1..] == a[1..] + b;
    }
  }

  lemma {:induction false} NoSlashes(s: string)
    requires '/' !in s
    ensures Slashes(s) == 0
  {
    if s != [] {
      NoSlashes(s[1..]);
    }
  }

  lemma {:induction false} StarsHaveNoSlash(ts: seq<Token>)
    requires StarOnly(ts)
    ensures LitSlashes(ts) == 0
  {
    if ts != [] {
      assert forall i :: 0 < i < |ts| ==> ts[i] == ts[1..][i - 1];
      StarsHaveNoSlash(ts[1..]);
    }
  }

  lemma {:induction false} CutWithoutDoubleStar(pat: string)
    requires NoDoubleStar(pat)
    ensures LitSlashes(Cut(pat)) == Slashes(pat)
    ensures forall i :: 0 <= i < |Cut(pat)| ==> !Cut(pat)[i].DoubleStar?
  {
    if pat != [] {
      assert |pat| > 1 && pat[0] == '*' && pat[1] == '*' ==> "**" <= pat;
      CutWithoutDoubleStar(pat[1..]);
      assert Cut(pat)[1..] == Cut(pat[1..]);
    }
  }

  lemma {:induction false} AllowedSlashes(t: Token, seg: string)
    requires Allows(t, seg) && !t.DoubleStar?
    ensures Slashes(seg) == if t == Lit('/') then 1 else 0
  {
    if t == Lit('/') {
      assert Slashes(seg) == 1 + Slashes(seg[1..]);
    } else {
      assert '/' !in seg;
      NoSlashes(seg);
    }
  }

  lemma {:induction false} MatchedSlashes(ts: seq<Token>, txt: string)
    requires Matches(ts, txt) && forall i :: 0 <= i < |ts| ==> !ts[i].DoubleStar?
    ensures Slashes(txt) == LitSlashes(ts)
    decreases |ts|
  {
    if txt == [] {
      MatchesNothing(ts);
      StarsHaveNoSlash(ts);
    } else {
      hide Allows, Slashes, Matches;
      var i := MatchesFront(ts, txt);
      var seg := txt[..i];
      MatchedSlashes(ts[1..], txt[i..]);
      assert txt == seg + txt[i..];
      SlashesAppend(seg, txt[i..]);
      AllowedSlashes(ts[0], seg);
    }
  }

  /** Without `**`, a pattern reaches no deeper and no shallower than it is written. */
  lemma {:induction false} SameDepth(pattern: string, text: string, segs: seq<string>)
    requires NoDoubleStar(pattern) && Reads(Cut(pattern), text, segs)
    ensures Slashes(text) == Slashes(pattern)
  {
    MatchesIffReads(Cut(pattern), text);
    CutWithoutDoubleStar(pattern);
    MatchedSlashes(Cut(pattern), text);
  }

  /** At the end of the text a `**` with a slash behind it is no longer taken whole:
      `a` followed by one does not match `a`, though it matches every longer text that
      starts with `a`. */
  lemma {:induction false} TrailingSlashNeedsText(rest: string)
    ensures Matches(Cut("a**/"), "a" + rest) <==> rest != []
  {
    var ts := [Lit('a'), DoubleStar(true)];
    var txt := "a" + rest;
    assert "a**/"[1..] == "**/" && "**/"[3..] == [];
    assert Cut("**/") == [DoubleStar(true)] + Cut([]);
    assert Cut("a**/") == ts;
    assert txt[1..] == rest;
    assert ts[1..] == [DoubleStar(true)];
    if rest != [] {
      assert rest[|rest|..] == [];
      assert Allows(DoubleStar(true), rest[..|rest|]) && Matches([], rest[|rest|..]);
      assert [DoubleStar(true)][1..] == [];
      assert Matches(ts[1..], txt[1..]);
      assert Allows(ts[0], txt[..1]);
    } else {
      assert !StarOnly([DoubleStar(true)]) by { assert [DoubleStar(true)][0] == DoubleStar(true); }
      assert !Matches(ts[1..], txt[1..]);
    }
  }

  // ---- What the wildcards stand for -----------------------------------------------------

  predicate Plain(s: string) {
    forall i :: 0 <= i < |s| ==> s[i] != '*' && s[i] != '?'
  }

  function Lits(s: string): (ts: seq<Token>)
    ensures |ts| == |s| && forall i :: 0 <= i < |s| ==> ts[i] == Lit(s[i])
  {
    seq(|s|, i requires 0 <= i < |s| => Lit(s[i]))
  }

  lemma LitsFront(a: string)
    requires a != []
    ensures Lits(a) == [Lit(a[0])] + Lits(a[1..])
  {
  }

  lemma {:induction false} CutPlain(a: string, rest: string)
    requires Plain(a)
    ensures Cut(a + rest) == Lits(a) + Cut(rest)
  {
    if a == [] {
      assert a + rest == rest && Lits(a) + Cut(rest) == Cut(rest);
    } else {
      assert Cut(a + rest) == [Lit(a[0])] + Cut(a[1..] + rest) by {
        assert (a + rest)[1..] == a[1..] + rest;
      }
      CutPlain(a[1..], rest);
      hide Cut, Lits;
      LitsFront(a);
      assert [Lit(a[0])] + (Lits(a[1..]) + Cut(rest)) == [Lit(a[0])] + Lits(a[1..]) + Cut(rest);
    }
  }

  lemma {:induction false} MatchesLit(c: char, ts: seq<Token>, txt: string)
    ensures Matches([Lit(c)] + ts, txt) <==> txt != [] && txt[0] == c && Matches(ts, txt[1..])
  {
    var all := [Lit(c)] + ts;
    assert all[0] == Lit(c) && all[1..] == ts;
    if Matches(all, txt) && txt != [] {
      var i := MatchesFront(all, txt);
      assert txt[..i] == [c];
    }
    if txt != [] && txt[0] == c && Matches(ts, txt[1..]) {
      assert txt[..1] == [c];
      MatchesCons(all, txt, 1);
    }
  }

  lemma {:induction false} MatchesLits(a: string, ts: seq<Token>, txt: string)
    ensures Matches(Lits(a) + ts, txt) <==> a <= txt && Matches(ts, txt[|a|..])
  {
    if a == [] {
      assert Lits(a) + ts == ts && txt[0..] == txt;
    } else {
      assert Lits(a) + ts == [Lit(a[0])] + (Lits(a[1..]) + ts);
      MatchesLit(a[0], Lits(a[1..]) + ts, txt);
      if txt != [] {
        MatchesLits(a[1..], ts, txt[1..]);
        assert a <= txt <==> a[0] == txt[0] && a[1..] <= txt[1..];
        assert a <= txt ==> txt[1..][|a| - 1..] == txt[|a|..];
      }
    }
  }

  lemma {:induction false} MatchesOnlyLits(b: string, txt: string)
    ensures Matches(Lits(b), txt) <==> txt == b
  {
    MatchesLits(b, [], txt);
    assert Lits(b) + [] == Lits(b);
  }

  lemma {:induction false} TokenAtEnd(t: Token, b: string)
    ensures Matches([t] + Lits(b), []) <==> b == [] && (t == Star || t == DoubleStar(false))
  {
    var ts := [t] + Lits(b);
    assert ts[0] == t && (b != [] ==> ts[1] == Lit(b[0]));
    MatchesNothing(ts);
    hide Matches;
  }

  lemma {:induction false} TokenTakes(t: Token, b: string, txt: string) returns (m: string)
    requires txt != [] && Matches([t] + Lits(b), txt)
    ensures m + b == txt && Allows(t, m)
  {
    hide Allows;
    var ts := [t] + Lits(b);
    var i := MatchesFront(ts, txt);
    hide Matches;
    m := txt[..i];
    assert ts[1..] == Lits(b);
    MatchesOnlyLits(b, txt[i..]);
  }

  lemma {:induction false} TokenMatches(t: Token, b: string, m: string)
    requires m + b != [] && Allows(t, m)
    ensures Matches([t] + Lits(b), m + b)
  {
    hide Allows, Matches;
    var ts, txt := [t] + Lits(b), m + b;
    assert ts[1..] == Lits(b) && txt[..|m|] == m && txt[|m|..] == b;
    MatchesOnlyLits(b, b);
    MatchesCons(ts, txt, |m|);
  }

  lemma {:induction false} MatchesToken(t: Token, b: string, txt: string)
    ensures Matches([t] + Lits(b), txt) <==>
              if txt == [] then b == [] && (t == Star || t == DoubleStar(false))
              else exists m :: m + b == txt && Allows(t, m)
  {
    hide Allows, Matches;
    if txt == [] {
      TokenAtEnd(t, b);
    } else {
      if Matches([t] + Lits(b), txt) {
        var m := TokenTakes(t, b, txt);
      }
      if m :| m + b == txt && Allows(t, m) {
        TokenMatches(t, b, m);
      }
    }
  }

  /** A single wildcard between two plain parts. */
  lemma {:induction false} OneWildcard(a: string, t: Token, b: string, txt: string)
    ensures Matches(Lits(a) + [t] + Lits(b), txt) <==>
              exists m :: a + m + b == txt && Allows(t, m)
                          && (m + b != [] || t == Star || t == DoubleStar(false))
  {
    assert Lits(a) + [t] + Lits(b) == Lits(a) + ([t] + Lits(b));
    MatchesLits(a, [t] + Lits(b), txt);
    if a <= txt {
      var r := txt[|a|..];
      MatchesToken(t, b, r);
      if r == [] {
        assert Allows(Star, []) && Allows(DoubleStar(false), []);
        assert a + [] + b == a + b;
      }
      forall m
        ensures a + m + b == txt <==> m + b == r
      {
        assert a + m + b == a + (m + b) && txt == a + r;
      }
    } else {
      forall m
        ensures a + m + b != txt
      {
        assert (a + m + b)[..|a|] == a;
      }
    }
  }

  lemma {:induction false} CutWildcard(a: string, w: string, t: Token, b: string)
    requires Plain(a) && Plain(b) && Cut(w + b) == [t] + Cut(b)
    ensures Cut(a + w + b) == Lits(a) + [t] + Lits(b)
  {
    assert a + w + b == a + (w + b);
    CutPlain(a, w + b);
    CutPlain(b, []);
    assert b + [] == b && Lits(b) + [] == Lits(b);
    assert Lits(a) + ([t] + Lits(b)) == Lits(a) + [t] + Lits(b);
  }

  /** A pattern without wildcards matches itself only. */
  lemma {:induction false} PlainMeans(a: string, txt: string)
    requires Plain(a)
    ensures Matches(Cut(a), txt) <==> txt == a
  {
    CutPlain(a, []);
    assert a + [] == a && Lits(a) + [] == Lits(a);
    MatchesOnlyLits(a, txt);
  }

  /** `*` stands for any text, none included, that has no slash. */
  lemma {:induction false} StarMeans(a: string, b: string, txt: string)
    requires Plain(a) && Plain(b)
    ensures Matches(Cut(a + "*" + b), txt) <==> exists m :: a + m + b == txt && '/' !in m
  {
    assert ("*" + b)[1..] == b;
    CutWildcard(a, "*", Star, b);
    OneWildcard(a, Star, b, txt);
    assert forall m :: Allows(Star, m) <==> '/' !in m;
  }

  /** `?` stands for one character other than a slash. */
  lemma {:induction false} AnyMeans(a: string, b: string, txt: string)
    requires Plain(a) && Plain(b)
    ensures Matches(Cut(a + "?" + b), txt) <==> exists m :: a + m + b == txt && |m| == 1 && m[0] != '/'
  {
    assert ("?" + b)[1..] == b;
    CutWildcard(a, "?", Any, b);
    OneWildcard(a, Any, b, txt);
    assert forall m :: Allows(Any, m) <==> |m| == 1 && m[0] != '/';
  }

  /** `**` stands for any text, slashes included. */
  lemma {:induction false} DoubleStarMeans(a: string, b: string, txt: string)
    requires Plain(a) && Plain(b) && !("/" <= b)
    ensures Matches(Cut(a + "**" + b), txt) <==> exists m :: a + m + b == txt
  {
    assert ("**" + b)[2..] == b;
    CutWildcard(a, "**", DoubleStar(false), b);
    OneWildcard(a, DoubleStar(false), b, txt);
    assert forall m :: Allows(DoubleStar(false), m);
  }

  /** A slash behind `**` counts for nothing, as long as there is text left. */
  lemma {:induction false} DoubleStarSlashMeans(a: string, b: string, txt: string)
    requires Plain(a) && Plain(b)
    ensures Matches(Cut(a + "**/" + b), txt) <==> exists m :: a + m + b == txt && m + b != []
  {
    assert ("**/" + b)[3..] == b;
    CutWildcard(a, "**/", DoubleStar(true), b);
    OneWildcard(a, DoubleStar(true), b, txt);
    assert forall m :: Allows(DoubleStar(true), m);
  }

  /** What lies below a folder, at any depth. */
  lemma {:induction false} FolderMeans(a: string, txt: string)
    requires Plain(a)
    ensures Matches(Cut(a + "/**"), txt) <==> a + "/" <= txt
  {
    var b: string := "";
    assert a + "/" + "**" + b == a + "/**";
    DoubleStarMeans(a + "/", b, txt);
    if a + "/" <= txt {
      assert a + "/" + txt[|a| + 1..] + b == txt;
    }
    if m :| a + "/" + m + b == txt {
      assert txt[..|a| + 1] == a + "/";
    }
  }
}
