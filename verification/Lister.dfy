/** The recursive listing every protocol shares: an explicit stack of directories, each
    read once, down to one level below the depth limit. */
module Lister {
  import opened Bytes
  import Glob
  import opened Seqs

  /** The size and the time a listing reports, if it does. */
  datatype Info = Info(size: Option<nat>, mtime: Option<string>)

  /** A directory tree; a file's `children` play no part. `readable`: listing the
      directory succeeds. */
  datatype Node = Node(name: string, isDir: bool, info: Info, readable: bool, children: seq<Node>)

  datatype Found = Found(path: string, isDir: bool, info: Info)

  datatype ListError = ListingFailed

  function FoundAs(path: string, n: Node): Found {
    Found(path, n.isDir, n.info)
  }

  /** The path of an entry of the directory `prefix`, the root's being empty. */
  function Rel(prefix: string, name: string): string {
    if prefix == [] then name else prefix + "/" + name
  }

  /** Everything listed for the directory with entries `cs`, in the order of a
      depth-first walk. */
  function Walk(cs: seq<Node>, prefix: string, depth: nat, limit: nat): seq<Found>
    decreases cs
  {
    if depth > limit || cs == [] then []
    else
      var rel := Rel(prefix, cs[0].name);
      [FoundAs(rel, cs[0])]
      + (if cs[0].isDir then Walk(cs[0].children, rel, depth + 1, limit) else [])
      + Walk(cs[1..], prefix, depth, limit)
  }

  /** Listing the directory `d`, or one below it that is still to be read, fails. */
  predicate Fails(d: Node, depth: nat, limit: nat)
    decreases d
  {
    depth <= limit && (!d.readable || SomeFails(d.children, depth + 1, limit))
  }

  predicate SomeFails(cs: seq<Node>, depth: nat, limit: nat)
    decreases cs
  {
    cs != [] && ((cs[0].isDir && Fails(cs[0], depth, limit)) || SomeFails(cs[1..], depth, limit))
  }

  // ---- The code -----------------------------------------------------------------------

  function Weight(cs: seq<Node>): nat
    decreases cs
  {
    if cs == [] then 0 else 1 + Weight(cs[0].children) + Weight(cs[1..])
  }

  /** A directory still to be read. */
  datatype Job = Job(dir: Node, prefix: string, depth: nat)

  function StackWeight(stack: seq<Job>): nat {
    if stack == [] then 0
    else StackWeight(stack[..|stack| - 1]) + 1 + Weight(stack[|stack| - 1].dir.children)
  }

  /** What reading the directories on the stack will still add. */
  function Pending(stack: seq<Job>, limit: nat): multiset<Found> {
    if stack == [] then multiset{}
    else
      var top := stack[|stack| - 1];
      Pending(stack[..|stack| - 1], limit) + multiset(Walk(top.dir.children, top.prefix, top.depth, limit))
  }

  predicate StackFails(stack: seq<Job>, limit: nat) {
    stack != [] &&
    (Fails(stack[|stack| - 1].dir, stack[|stack| - 1].depth, limit) || StackFails(stack[..|stack| - 1], limit))
  }

  lemma {:induction false} Push(stack: seq<Job>, j: Job, limit: nat)
    ensures Pending(stack + [j], limit)
         == Pending(stack, limit) + multiset(Walk(j.dir.children, j.prefix, j.depth, limit))
    ensures StackWeight(stack + [j]) == StackWeight(stack) + 1 + Weight(j.dir.children)
    ensures StackFails(stack + [j], limit) <==> Fails(j.dir, j.depth, limit) || StackFails(stack, limit)
  {
    assert (stack + [j])[..|stack|] == stack;
  }

  lemma {:induction false} WalkOne(cs: seq<Node>, i: nat, prefix: string, depth: nat, limit: nat)
    requires i < |cs| && depth <= limit
    ensures var rel := Rel(prefix, cs[i].name);
            multiset(Walk(cs[i..], prefix, depth, limit))
            == multiset{FoundAs(rel, cs[i])}
               + (if cs[i].isDir then multiset(Walk(cs[i].children, rel, depth + 1, limit)) else multiset{})
               + multiset(Walk(cs[i + 1..], prefix, depth, limit))
    ensures Weight(cs[i..]) == 1 + Weight(cs[i].children) + Weight(cs[i + 1..])
    ensures SomeFails(cs[i..], depth + 1, limit) <==>
              (cs[i].isDir && Fails(cs[i], depth + 1, limit)) || SomeFails(cs[i + 1..], depth + 1, limit)
  {
    assert cs[i..][1..] == cs[i + 1..];
  }

  lemma {:induction false} WalkNone(cs: seq<Node>, prefix: string, depth: nat, limit: nat)
    requires depth > limit || cs == []
    ensures Walk(cs, prefix, depth, limit) == []
    ensures cs == [] ==> Weight(cs) == 0 && !SomeFails(cs, depth + 1, limit)
  {
  }

  const DEFAULT_MAX_DEPTH := 200

  function Limit(maxDepth: nat): nat {
    if maxDepth == 0 then DEFAULT_MAX_DEPTH else maxDepth
  }

  /** What is listed, what the stack holds and what is left of the directory being read
      make up the walk; and what can still fail is what fails at all. */
  ghost predicate Progress(whole: multiset<Found>, failing: bool, result: seq<Found>, stack: seq<Job>,
                           rest: seq<Node>, prefix: string, depth: nat, limit: nat)
  {
    && multiset(result) + Pending(stack, limit) + multiset(Walk(rest, prefix, depth, limit)) == whole
    && (failing <==> StackFails(stack, limit) || SomeFails(rest, depth + 1, limit))
  }

  lemma {:induction false} ListingStarts(top: Node, limit: nat)
    ensures var whole := multiset(Walk(top.children, [], 0, limit));
            Progress(whole, Fails(top, 0, limit), [], [Job(top, [], 0)], [], [], 0, limit)
  {
    hide Walk, Fails, SomeFails, StackFails, Pending, Weight;
    Push([], Job(top, [], 0), limit);
    PendingNone(limit);
    assert [] + [Job(top, [], 0)] == [Job(top, [], 0)];
    WalkNone([], [], 0, limit);
  }

  lemma {:induction false} PendingNone(limit: nat)
    ensures Pending([], limit) == multiset{} && !StackFails([], limit)
  {
  }

  lemma {:induction false} ListingEnds(whole: multiset<Found>, failing: bool, result: seq<Found>, prefix: string,
                                       depth: nat, limit: nat)
    requires Progress(whole, failing, result, [], [], prefix, depth, limit)
    ensures multiset(result) == whole && !failing
  {
    WalkNone([], prefix, depth, limit);
  }

  /** The next directory: too deep, or refused, or to be read. */
  lemma {:induction false} NextJob(whole: multiset<Found>, failing: bool, result: seq<Found>, stack: seq<Job>,
                                   limit: nat)
    requires Progress(whole, failing, result, stack, [], [], 0, limit) && stack != []
    ensures var job, below := stack[|stack| - 1], stack[..|stack| - 1];
            && StackWeight(stack) == StackWeight(below) + 1 + Weight(job.dir.children)
            && if job.depth > limit then Progress(whole, failing, result, below, [], [], 0, limit)
               else if !job.dir.readable then failing
               else Progress(whole, failing, result, below, job.dir.children, job.prefix, job.depth, limit)
  {
    var job, below := stack[|stack| - 1], stack[..|stack| - 1];
    assert stack == below + [job];
    Push(below, job, limit);
    WalkNone([], [], 0, limit);
    if job.depth > limit {
      WalkNone(job.dir.children, job.prefix, job.depth, limit);
    }
  }

  /** One entry: listed, and put on the stack if it is a directory. */
  lemma {:induction false} MeetEntry(whole: multiset<Found>, failing: bool, result: seq<Found>, stack: seq<Job>,
                                     entries: seq<Node>, i: nat, prefix: string, depth: nat, limit: nat)
    requires i < |entries| && depth <= limit
    requires Progress(whole, failing, result, stack, entries[i..], prefix, depth, limit)
    ensures var entry, rel := entries[i], Rel(prefix, entries[i].name);
            var stack' := if entry.isDir then stack + [Job(entry, rel, depth + 1)] else stack;
            && Progress(whole, failing, result + [FoundAs(rel, entry)], stack', entries[i + 1..], prefix, depth, limit)
            && StackWeight(stack') + Weight(entries[i + 1..]) <= StackWeight(stack) + Weight(entries[i..])
  {
    hide Walk, Pending, StackFails, SomeFails, Fails, StackWeight, Weight;
    WalkOne(entries, i, prefix, depth, limit);
    if entries[i].isDir {
      Push(stack, Job(entries[i], Rel(prefix, entries[i].name), depth + 1), limit);
    }
  }

  /** Nothing is left of a directory that has been read. */
  lemma {:induction false} DirectoryRead(whole: multiset<Found>, failing: bool, result: seq<Found>, stack: seq<Job>,
                                         entries: seq<Node>, prefix: string, depth: nat, limit: nat)
    requires Progress(whole, failing, result, stack, entries[|entries|..], prefix, depth, limit)
    ensures Progress(whole, failing, result, stack, [], [], 0, limit) && Weight(entries[|entries|..]) == 0
  {
    assert entries[|entries|..] == [];
    WalkNone([], prefix, depth, limit);
    WalkNone([], [], 0, limit);
  }

  /** `list_recursive`: whatever the stack order, the walk's entries, each as often as
      the walk meets it; or nothing, exactly if a directory within the limit cannot be
      listed. */
  method ListRecursive(top: Node, maxDepth: nat) returns (r: Result<seq<Found>, ListError>)
    ensures r.Err? <==> Fails(top, 0, Limit(maxDepth))
    ensures r.Ok? ==> multiset(r.value) == multiset(Walk(top.children, [], 0, Limit(maxDepth)))
  {
    hide Walk, Weight, StackWeight, Fails, Progress;
    var effectiveMax := Limit(maxDepth);
    var result: seq<Found> := [];
    var stack := [Job(top, [], 0)];
    ghost var whole, failing := multiset(Walk(top.children, [], 0, effectiveMax)), Fails(top, 0, effectiveMax);
    ListingStarts(top, effectiveMax);
    while stack != []
      invariant Progress(whole, failing, result, stack, [], [], 0, effectiveMax)
      decreases StackWeight(stack)
    {
      NextJob(whole, failing, result, stack, effectiveMax);
      var job := stack[|stack| - 1];
      stack := stack[..|stack| - 1];
      ghost var below := StackWeight(stack);
      if job.depth > effectiveMax {
        continue;
      }
      if !job.dir.readable {
        return Err(ListingFailed);
      }
      var entries := job.dir.children;
      assert entries[0..] == entries;
      for i := 0 to |entries|
        invariant Progress(whole, failing, result, stack, entries[i..], job.prefix, job.depth, effectiveMax)
        invariant StackWeight(stack) + Weight(entries[i..]) <= below + Weight(entries)
      {
        var entry := entries[i];
        var rel := Rel(job.prefix, entry.name);
        MeetEntry(whole, failing, result, stack, entries, i, job.prefix, job.depth, effectiveMax);
        if entry.isDir {
          stack := stack + [Job(entry, rel, job.depth + 1)];
        }
        result := result + [FoundAs(rel, entry)];
      }
      DirectoryRead(whole, failing, result, stack, entries, job.prefix, job.depth, effectiveMax);
    }
    ListingEnds(whole, failing, result, [], 0, effectiveMax);
    r := Ok(result);
  }

  // ---- Each node once, under its own path -------------------------------------------------

  /** Names as file systems have them: not empty, without slashes, distinct among siblings. */
  ghost predicate Named(cs: seq<Node>)
    decreases cs
  {
    cs == [] ||
    (cs[0].name != [] && '/' !in cs[0].name && Named(cs[0].children) && Named(cs[1..])
     && forall j :: 1 <= j < |cs| ==> cs[j].name != cs[0].name)
  }

  /** The node that a list of names leads to. */
  function Resolve(cs: seq<Node>, names: seq<string>): seq<Node>
    requires names != []
    ensures |Resolve(cs, names)| <= 1
    decreases cs
  {
    if cs == [] then []
    else if cs[0].name != names[0] then Resolve(cs[1..], names)
    else if |names| == 1 then [cs[0]]
    else if cs[0].isDir then Resolve(cs[0].children, names[1..])
    else []
  }

  /** The names joined by slashes below `prefix`. */
  function Join(prefix: string, names: seq<string>): string
    decreases |names|
  {
    if names == [] then prefix else Join(Rel(prefix, names[0]), names[1..])
  }

  /** `path` is `name` in the directory `prefix`, or below it. */
  predicate Under(path: string, prefix: string, name: string) {
    var top := Rel(prefix, name);
    top <= path && (path == top || path[|top|] == '/')
  }

  function UpToSlash(s: string): string {
    if s == [] || s[0] == '/' then [] else [s[0]] + UpToSlash(s[1..])
  }

  lemma {:induction false} NameUpToSlash(s: string, name: string)
    requires name <= s && '/' !in name && (s == name || s[|name|] == '/')
    ensures UpToSlash(s) == name
  {
    if name != [] {
      NameUpToSlash(s[1..], name[1..]);
      assert name == [name[0]] + name[1..];
    }
  }

  /** What follows the prefix starts with the name, up to its end or a slash. */
  lemma UnderFrom(path: string, prefix: string, name: string)
    requires Under(path, prefix, name)
    ensures var at := if prefix == [] then 0 else |prefix| + 1;
            && at <= |path| && name <= path[at..] && (path[at..] == name || path[at..][|name|] == '/')
  {
    var at := if prefix == [] then 0 else |prefix| + 1;
    var top := Rel(prefix, name);
    assert top[at..] == name;
    assert path == top + path[|top|..];
    assert path[at..] == top[at..] + path[|top|..];
  }

  lemma UnderOne(path: string, prefix: string, a: string, b: string)
    requires Under(path, prefix, a) && Under(path, prefix, b)
    requires '/' !in a && '/' !in b
    ensures a == b
  {
    hide Under;
    var at := if prefix == [] then 0 else |prefix| + 1;
    UnderFrom(path, prefix, a);
    UnderFrom(path, prefix, b);
    NameUpToSlash(path[at..], a);
    NameUpToSlash(path[at..], b);
  }

  function PathOf(f: Found): string {
    f.path
  }

  lemma UnderItself(prefix: string, name: string)
    requires name != []
    ensures Under(Rel(prefix, name), prefix, name) && Rel(prefix, name) != prefix
  {
  }

  lemma UnderChild(path: string, prefix: string, name: string, below: string)
    requires name != [] && Under(path, Rel(prefix, name), below)
    ensures Under(path, prefix, name) && path != prefix
  {
    var top := Rel(prefix, name);
    assert Rel(top, below) == top + "/" + below;
    assert top + "/" <= Rel(top, below) <= path;
  }

  /** The entries of a walk: the first node, what lies below it, and the others. */
  function Below(n: Node, prefix: string, depth: nat, limit: nat): seq<Found> {
    if n.isDir then Walk(n.children, Rel(prefix, n.name), depth + 1, limit) else []
  }

  lemma {:induction false} WalkParts(cs: seq<Node>, prefix: string, depth: nat, limit: nat)
    requires cs != [] && depth <= limit
    ensures Walk(cs, prefix, depth, limit)
         == [FoundAs(Rel(prefix, cs[0].name), cs[0])] + Below(cs[0], prefix, depth, limit)
            + Walk(cs[1..], prefix, depth, limit)
  {
  }

  lemma {:induction false} NoWalk(cs: seq<Node>, prefix: string, depth: nat, limit: nat)
    requires Walk(cs, prefix, depth, limit) != []
    ensures cs != [] && depth <= limit
  {
  }

  lemma {:induction false} FirstNamed(cs: seq<Node>)
    requires Named(cs) && cs != []
    ensures cs[0].name != [] && '/' !in cs[0].name && Named(cs[0].children) && Named(cs[1..])
  {
  }

  /** Every path of the walk lies under an entry. */
  lemma {:induction false} WalkUnder(cs: seq<Node>, prefix: string, depth: nat, limit: nat, k: nat) returns (c: nat)
    requires Named(cs) && k < |Walk(cs, prefix, depth, limit)|
    ensures c < |cs| && Under(Walk(cs, prefix, depth, limit)[k].path, prefix, cs[c].name)
    ensures Walk(cs, prefix, depth, limit)[k].path != prefix
    decreases cs
  {
    hide Walk, Under, Named, Rel;
    NoWalk(cs, prefix, depth, limit);
    WalkParts(cs, prefix, depth, limit);
    FirstNamed(cs);
    var rel, below := Rel(prefix, cs[0].name), Below(cs[0], prefix, depth, limit);
    if k == 0 {
      UnderItself(prefix, cs[0].name);
      c := 0;
    } else if k <= |below| {
      var d := WalkUnder(cs[0].children, rel, depth + 1, limit, k - 1);
      UnderChild(below[k - 1].path, prefix, cs[0].name, cs[0].children[d].name);
      c := 0;
    } else {
      var d := WalkUnder(cs[1..], prefix, depth, limit, k - 1 - |below|);
      c := d + 1;
    }
  }

  lemma {:induction false} NamedAt(cs: seq<Node>, c: nat)
    requires Named(cs) && c < |cs|
    ensures cs[c].name != [] && '/' !in cs[c].name
    ensures c > 0 ==> cs[c].name != cs[0].name
  {
    if c > 0 {
      NamedAt(cs[1..], c - 1);
    }
  }

  /** Nothing below an entry has its path, and all of it lies under it. */
  lemma {:induction false} BelowUnder(n: Node, prefix: string, depth: nat, limit: nat)
    requires n.name != [] && Named(n.children)
    ensures forall f :: f in Below(n, prefix, depth, limit) ==>
              f.path != Rel(prefix, n.name) && Under(f.path, prefix, n.name)
  {
    hide Walk, Under, Named, Rel;
    var rel, below := Rel(prefix, n.name), Below(n, prefix, depth, limit);
    forall f | f in below
      ensures f.path != rel && Under(f.path, prefix, n.name)
    {
      var i :| 0 <= i < |below| && below[i] == f;
      var d := WalkUnder(n.children, rel, depth + 1, limit, i);
      UnderChild(f.path, prefix, n.name, n.children[d].name);
    }
  }

  /** Nothing of the entries after the first lies under it. */
  lemma {:induction false} RestApart(cs: seq<Node>, prefix: string, depth: nat, limit: nat)
    requires Named(cs) && cs != []
    ensures forall f :: f in Walk(cs[1..], prefix, depth, limit) ==> !Under(f.path, prefix, cs[0].name)
  {
    FirstNamed(cs);
    hide Walk, Under, Named, Rel;
    var rest := Walk(cs[1..], prefix, depth, limit);
    forall f | f in rest
      ensures !Under(f.path, prefix, cs[0].name)
    {
      var i :| 0 <= i < |rest| && rest[i] == f;
      var c := WalkUnder(cs[1..], prefix, depth, limit, i);
      NotUnderFirst(f.path, prefix, cs, c + 1);
    }
  }

  lemma {:induction false} NotUnderFirst(path: string, prefix: string, cs: seq<Node>, c: nat)
    requires Named(cs) && 0 < c < |cs| && Under(path, prefix, cs[c].name)
    ensures !Under(path, prefix, cs[0].name)
  {
    FirstNamed(cs);
    NamedAt(cs, c);
    hide Under, Named, Rel;
    if Under(path, prefix, cs[0].name) {
      UnderOne(path, prefix, cs[0].name, cs[c].name);
    }
  }

  /** Distinct paths in each of three parts, and none in two of them. */
  lemma KeyedParts(first: Found, below: seq<Found>, rest: seq<Found>, under: string -> bool)
    requires Keyed(below, PathOf) && Keyed(rest, PathOf)
    requires under(first.path) && forall f :: f in below ==> f.path != first.path && under(f.path)
    requires forall f :: f in rest ==> !under(f.path)
    ensures Keyed([first] + below + rest, PathOf)
  {
    var all, n := [first] + below + rest, 1 + |below|;
    forall i, j | 0 <= i < j < |all|
      ensures PathOf(all[i]) != PathOf(all[j])
    {
      if j >= n {
        assert all[j] == rest[j - n] && rest[j - n] in rest;
        if 0 < i < n {
          assert all[i] == below[i - 1] && below[i - 1] in below;
        }
      } else {
        assert all[j] == below[j - 1] && below[j - 1] in below;
      }
    }
  }

  lemma {:induction false} EachOnce(cs: seq<Node>, prefix: string, depth: nat, limit: nat)
    requires Named(cs)
    ensures Keyed(Walk(cs, prefix, depth, limit), PathOf)
    decreases cs
  {
    if Walk(cs, prefix, depth, limit) != [] {
      hide Walk, Under, Named, Rel, Below, Keyed;
      NoWalk(cs, prefix, depth, limit);
      WalkParts(cs, prefix, depth, limit);
      FirstNamed(cs);
      var below := Below(cs[0], prefix, depth, limit);
      BelowOnce(cs[0], prefix, depth, limit);
      EachOnce(cs[1..], prefix, depth, limit);
      BelowUnder(cs[0], prefix, depth, limit);
      RestApart(cs, prefix, depth, limit);
      UnderItself(prefix, cs[0].name);
      KeyedParts(FoundAs(Rel(prefix, cs[0].name), cs[0]), below, Walk(cs[1..], prefix, depth, limit),
                 path => Under(path, prefix, cs[0].name));
    }
  }

  lemma {:induction false} BelowOnce(n: Node, prefix: string, depth: nat, limit: nat)
    requires Named(n.children)
    ensures Keyed(Below(n, prefix, depth, limit), PathOf)
    decreases n
  {
    if n.isDir {
      EachOnce(n.children, Rel(prefix, n.name), depth + 1, limit);
    }
  }

  /** A list of names that leads to a node within the limit is listed, as that node. */
  lemma {:induction false} Complete(cs: seq<Node>, prefix: string, depth: nat, limit: nat, names: seq<string>)
    requires names != [] && Resolve(cs, names) != [] && depth + |names| <= limit + 1
    ensures FoundAs(Join(prefix, names), Resolve(cs, names)[0]) in Walk(cs, prefix, depth, limit)
    decreases cs
  {
    var rel := Rel(prefix, cs[0].name);
    if cs[0].name != names[0] {
      Complete(cs[1..], prefix, depth, limit, names);
    } else if |names| == 1 {
      assert Join(rel, names[1..]) == rel;
      assert Walk(cs, prefix, depth, limit)[0] == FoundAs(rel, cs[0]);
    } else {
      Complete(cs[0].children, rel, depth + 1, limit, names[1..]);
    }
  }

  lemma {:induction false} NamesFront(cs: seq<Node>, prefix: string, below: seq<string>)
    requires cs != []
    ensures var names := [cs[0].name] + below;
            && Join(prefix, names) == Join(Rel(prefix, cs[0].name), below)
            && Resolve(cs, names)
               == (if below == [] then [cs[0]] else if cs[0].isDir then Resolve(cs[0].children, below) else [])
  {
    assert ([cs[0].name] + below)[1..] == below;
  }

  lemma {:induction false} NamesElsewhere(cs: seq<Node>, names: seq<string>)
    requires cs != [] && names != [] && names[0] != cs[0].name
    ensures Resolve(cs, names) == Resolve(cs[1..], names)
  {
  }

  /** And nothing else is. */
  lemma {:induction false} Sound(cs: seq<Node>, prefix: string, depth: nat, limit: nat, f: Found)
    returns (names: seq<string>)
    requires Named(cs) && f in Walk(cs, prefix, depth, limit)
    ensures names != [] && depth + |names| <= limit + 1 && Resolve(cs, names) != []
    ensures f == FoundAs(Join(prefix, names), Resolve(cs, names)[0])
    decreases cs
  {
    NoWalk(cs, prefix, depth, limit);
    WalkParts(cs, prefix, depth, limit);
    FirstNamed(cs);
    assert forall j :: 1 <= j < |cs| ==> cs[j].name != cs[0].name;
    hide Walk, Named, Rel, Resolve;
    var rel := Rel(prefix, cs[0].name);
    if f == FoundAs(rel, cs[0]) {
      names := [cs[0].name] + [];
      NamesFront(cs, prefix, []);
    } else if f in Below(cs[0], prefix, depth, limit) {
      var below := Sound(cs[0].children, rel, depth + 1, limit, f);
      names := [cs[0].name] + below;
      NamesFront(cs, prefix, below);
    } else {
      names := Sound(cs[1..], prefix, depth, limit, f);
      ResolveNames(cs[1..], names);
      NamesElsewhere(cs, names);
    }
  }

  lemma {:induction false} ResolveNames(cs: seq<Node>, names: seq<string>)
    requires names != [] && Resolve(cs, names) != []
    ensures exists j :: 0 <= j < |cs| && cs[j].name == names[0]
  {
    if cs[0].name == names[0] {
    } else {
      ResolveNames(cs[1..], names);
      var j :| 0 <= j < |cs[1..]| && cs[1..][j].name == names[0];
      assert cs[j + 1].name == names[0];
    }
  }

  /** On the way to a node there are only directories. */
  lemma {:induction false} ResolvePrefix(cs: seq<Node>, names: seq<string>, k: nat)
    requires 0 < k < |names| && Resolve(cs, names) != []
    ensures Resolve(cs, names[..k]) != [] && Resolve(cs, names[..k])[0].isDir
    decreases cs
  {
    if cs[0].name != names[0] {
      ResolvePrefix(cs[1..], names, k);
    } else if k > 1 {
      ResolvePrefix(cs[0].children, names[1..], k - 1);
      assert names[..k][1..] == names[1..][..k - 1];
    }
  }

  /** `f` is a node of the tree, at most one level below the limit. */
  ghost predicate Listable(root: seq<Node>, limit: nat, f: Found) {
    exists names :: LeadsTo(root, limit, names) && f == FoundAs(Join([], names), Resolve(root, names)[0])
  }

  predicate LeadsTo(root: seq<Node>, limit: nat, names: seq<string>) {
    names != [] && |names| <= limit + 1 && Resolve(root, names) != []
  }

  lemma {:induction false} WalkIsListable(root: seq<Node>, limit: nat, f: Found)
    requires Named(root)
    ensures f in Walk(root, [], 0, limit) <==> Listable(root, limit, f)
  {
    if f in Walk(root, [], 0, limit) {
      var names := Sound(root, [], 0, limit, f);
      assert LeadsTo(root, limit, names);
    }
    if Listable(root, limit, f) {
      var names :| LeadsTo(root, limit, names) && f == FoundAs(Join([], names), Resolve(root, names)[0]);
      Complete(root, [], 0, limit, names);
    }
  }

  /** A directory that cannot be listed, `names` below the one with entries `cs`. */
  predicate Unreadable(cs: seq<Node>, names: seq<string>) {
    names != [] && Resolve(cs, names) != [] && Resolve(cs, names)[0].isDir && !Resolve(cs, names)[0].readable
  }

  lemma {:induction false} UnreadableFails(cs: seq<Node>, depth: nat, limit: nat, names: seq<string>)
    requires Unreadable(cs, names) && depth + |names| <= limit + 1
    ensures SomeFails(cs, depth, limit)
    decreases cs
  {
    if cs[0].name != names[0] {
      UnreadableFails(cs[1..], depth, limit, names);
    } else if |names| > 1 {
      UnreadableFails(cs[0].children, depth + 1, limit, names[1..]);
    }
  }

  lemma {:induction false} FailsUnreadable(cs: seq<Node>, depth: nat, limit: nat) returns (names: seq<string>)
    requires Named(cs) && SomeFails(cs, depth, limit)
    ensures Unreadable(cs, names) && depth + |names| <= limit + 1
    decreases cs
  {
    if cs[0].isDir && Fails(cs[0], depth, limit) {
      if !cs[0].readable {
        names := [cs[0].name];
      } else {
        var below := FailsUnreadable(cs[0].children, depth + 1, limit);
        names := [cs[0].name] + below;
        assert names[1..] == below;
      }
    } else {
      names := FailsUnreadable(cs[1..], depth, limit);
      ResolveNames(cs[1..], names);
      assert cs[0].name != names[0];
    }
  }

  /** The listing fails exactly if the root cannot be listed or some directory at most the
      limit below it. */
  lemma {:induction false} FailsExactly(top: Node, limit: nat)
    requires Named(top.children)
    ensures Fails(top, 0, limit) <==>
              !top.readable || exists names :: Unreadable(top.children, names) && |names| <= limit
  {
    if top.readable && Fails(top, 0, limit) {
      var names := FailsUnreadable(top.children, 1, limit);
    }
    if exists names :: Unreadable(top.children, names) && |names| <= limit {
      var names :| Unreadable(top.children, names) && |names| <= limit;
      UnreadableFails(top.children, 1, limit, names);
    }
  }

  /** What `list_recursive` returns on a named tree, in whatever order: every node at
      most one level below the limit, once, under the names that lead to it. */
  lemma {:induction false} ListedExactly(root: seq<Node>, maxDepth: nat, result: seq<Found>)
    requires Named(root) && multiset(result) == multiset(Walk(root, [], 0, Limit(maxDepth)))
    ensures Keyed(result, PathOf)
    ensures forall f :: f in result <==> Listable(root, Limit(maxDepth), f)
  {
    hide Listable, Walk, Keyed;
    var walk := Walk(root, [], 0, Limit(maxDepth));
    EachOnce(root, [], 0, Limit(maxDepth));
    ShuffledKeyed(walk, result, PathOf);
    forall f
      ensures f in result <==> Listable(root, Limit(maxDepth), f)
    {
      WalkIsListable(root, Limit(maxDepth), f);
      SameMembers(walk, result, f);
    }
  }

  /** With each node, all the directories above it are listed. */
  lemma {:induction false} ListedWithParents(root: seq<Node>, limit: nat, names: seq<string>, k: nat)
    requires LeadsTo(root, limit, names) && 0 < k < |names|
    ensures Resolve(root, names[..k]) != [] && Resolve(root, names[..k])[0].isDir
    ensures FoundAs(Join([], names[..k]), Resolve(root, names[..k])[0]) in Walk(root, [], 0, limit)
  {
    ResolvePrefix(root, names, k);
    Complete(root, [], 0, limit, names[..k]);
  }

  /** The depth the sync engine sorts by, the slashes in a path, is that of the node. */
  lemma {:induction false} JoinSlashes(prefix: string, names: seq<string>)
    requires names != [] && forall i :: 0 <= i < |names| ==> names[i] != [] && '/' !in names[i]
    ensures Glob.Slashes(Join(prefix, names))
         == (if prefix == [] then |names| - 1 else Glob.Slashes(prefix) + |names|)
    decreases |names|
  {
    var rel := Rel(prefix, names[0]);
    Glob.NoSlashes(names[0]);
    if prefix != [] {
      Glob.SlashesAppend(prefix, "/" + names[0]);
      assert prefix + "/" + names[0] == prefix + ("/" + names[0]);
      assert ("/" + names[0])[1..] == names[0];
    }
    if |names| > 1 {
      JoinSlashes(rel, names[1..]);
    } else {
      assert Join(rel, names[1..]) == rel;
    }
  }
}
