/** The tagged Merkle root over a manifest's entries, and what it binds. The hash is a
    parameter: nothing is assumed of it but that its results are 32 bytes. */
module Merkle {
  import opened Bytes
  import opened Paths

  type Digest = d: seq<byte> | |d| == 32 witness seq(32, _ => 0)

  datatype EntryKind = File | Dir

  datatype Entry = Entry(kind: EntryKind, path: Path, mode: u32, size: u64, offset: u64, sha256: Digest)

  const LEAF_TAG: byte := 0x00
  const NODE_TAG: byte := 0x01

  function KindByte(k: EntryKind): byte {
    match k case File => 0 case Dir => 1
  }

  // ---- Hashing -------------------------------------------------------------------------------

  /** What `leaf_hash` feeds the hasher: everything but the offset. */
  function LeafInput(e: Entry): seq<byte> {
    [LEAF_TAG, KindByte(e.kind)] + LE(|e.path|, 8) + e.path + LE(e.mode, 4) + LE(e.size, 8) + e.sha256
  }

  function NodeInput(l: Digest, r: Digest): seq<byte> {
    [NODE_TAG] + l + r
  }

  function LeafHashes(h: seq<byte> -> Digest, entries: seq<Entry>): (level: seq<Digest>)
    ensures |level| == |entries|
  {
    seq<Digest>(|entries|, i requires 0 <= i < |entries| => h(LeafInput(entries[i])))
  }

  /** One level up: pairs hashed, an odd last node promoted. */
  function NextLevel(h: seq<byte> -> Digest, level: seq<Digest>): (next: seq<Digest>)
    ensures |next| == (|level| + 1) / 2
  {
    if |level| < 2 then level
    else [h(NodeInput(level[0], level[1]))] + NextLevel(h, level[2..])
  }

  function TopOf(h: seq<byte> -> Digest, level: seq<Digest>): Digest
    requires level != []
    decreases |level|
  {
    if |level| == 1 then level[0] else TopOf(h, NextLevel(h, level))
  }

  lemma NextFrom(h: seq<byte> -> Digest, level: seq<Digest>, i: nat)
    requires i < |level|
    ensures NextLevel(h, level[i..])
         == if i + 1 < |level| then [h(NodeInput(level[i], level[i + 1]))] + NextLevel(h, level[i + 2..])
            else [level[i]] + NextLevel(h, level[i + 1..])
  {
    if i + 1 < |level| {
      assert level[i..][2..] == level[i + 2..];
    } else {
      assert level[i..] == [level[i]] + level[i + 1..];
    }
  }

  /** One level up, node by node. */
  lemma {:induction false} NextLevelAt(h: seq<byte> -> Digest, level: seq<Digest>, i: nat)
    requires i < (|level| + 1) / 2
    ensures NextLevel(h, level)[i] ==
              if 2 * i + 1 < |level| then h([1] + level[2 * i] + level[2 * i + 1]) else level[|level| - 1]
  {
    if i > 0 {
      NextLevelAt(h, level[2..], i - 1);
    }
  }

  lemma {:induction false} NextOfNone(h: seq<byte> -> Digest, level: seq<Digest>)
    requires |level| == 0
    ensures NextLevel(h, level) == []
  {
  }

  lemma {:induction false} TopIsAbove(h: seq<byte> -> Digest, level: seq<Digest>)
    requires |level| > 1
    ensures TopOf(h, NextLevel(h, level)) == TopOf(h, level)
  {
  }

  function Root(h: seq<byte> -> Digest, entries: seq<Entry>): Digest {
    if entries == [] then h([NODE_TAG]) else TopOf(h, LeafHashes(h, entries))
  }

  lemma OneMore(done: seq<Digest>, d: Digest, rest: seq<Digest>)
    ensures done + ([d] + rest) == done + [d] + rest
  {
  }

  /** The inner loop of `merkle_root`. */
  method LevelUp(h: seq<byte> -> Digest, level: seq<Digest>) returns (next: seq<Digest>)
    ensures next == NextLevel(h, level)
  {
    hide NextLevel;
    next := [];
    var i := 0;
    while i < |level|
      invariant i <= |level| && NextLevel(h, level) == next + NextLevel(h, level[i..])
    {
      NextFrom(h, level, i);
      if i + 1 < |level| {
        var node := h(NodeInput(level[i], level[i + 1]));
        OneMore(next, node, NextLevel(h, level[i + 2..]));
        next := next + [node];
        i := i + 2;
      } else {
        OneMore(next, level[i], NextLevel(h, level[i + 1..]));
        next := next + [level[i]];
        i := i + 1;
      }
    }
    NextOfNone(h, level[i..]);
  }

  /** `merkle_root`. */
  method MerkleRoot(h: seq<byte> -> Digest, entries: seq<Entry>) returns (root: Digest)
    ensures root == Root(h, entries)
  {
    if entries == [] {
      return h([NODE_TAG]);
    }
    var level := LeafHashes(h, entries);
    while |level| > 1
      invariant level != [] && TopOf(h, level) == Root(h, entries)
      decreases |level|
    {
      TopIsAbove(h, level);
      level := LevelUp(h, level);
    }
    root := level[0];
  }

  // ---- The tree behind the levels -----------------------------------------------------------

  datatype Tree = Leaf(entry: Entry) | Node(left: Tree, right: Tree)

  function Hash(h: seq<byte> -> Digest, t: Tree): Digest {
    match t
    case Leaf(e) => h(LeafInput(e))
    case Node(l, r) => h(NodeInput(Hash(h, l), Hash(h, r)))
  }

  /** Every string hashed on the way to `Hash(h, t)`. */
  function Inputs(h: seq<byte> -> Digest, t: Tree): set<seq<byte>> {
    match t
    case Leaf(e) => {LeafInput(e)}
    case Node(l, r) => {NodeInput(Hash(h, l), Hash(h, r))} + Inputs(h, l) + Inputs(h, r)
  }

  function Fringe(t: Tree): seq<Entry> {
    match t
    case Leaf(e) => [e]
    case Node(l, r) => Fringe(l) + Fringe(r)
  }

  function Hashes(h: seq<byte> -> Digest, level: seq<Tree>): (ds: seq<Digest>)
    ensures |ds| == |level|
  {
    seq<Digest>(|level|, i requires 0 <= i < |level| => Hash(h, level[i]))
  }

  function Fringes(level: seq<Tree>): seq<Entry> {
    if level == [] then [] else Fringe(level[0]) + Fringes(level[1..])
  }

  function Paired(level: seq<Tree>): (next: seq<Tree>)
    ensures |next| == (|level| + 1) / 2
  {
    if |level| < 2 then level else [Node(level[0], level[1])] + Paired(level[2..])
  }

  function Joined(level: seq<Tree>): Tree
    requires level != []
    decreases |level|
  {
    if |level| == 1 then level[0] else Joined(Paired(level))
  }

  function Leaves(entries: seq<Entry>): (level: seq<Tree>)
    ensures |level| == |entries|
  {
    seq(|entries|, i requires 0 <= i < |entries| => Leaf(entries[i]))
  }

  lemma {:induction false} PairedAgrees(h: seq<byte> -> Digest, level: seq<Tree>)
    ensures NextLevel(h, Hashes(h, level)) == Hashes(h, Paired(level))
    ensures Fringes(Paired(level)) == Fringes(level)
    decreases |level|
  {
    if |level| >= 2 {
      PairedAgrees(h, level[2..]);
      assert Hashes(h, level)[2..] == Hashes(h, level[2..]);
      assert Paired(level)[1..] == Paired(level[2..]);
      assert level[1..][1..] == level[2..];
      assert Fringe(level[0]) + (Fringe(level[1]) + Fringes(level[2..]))
          == (Fringe(level[0]) + Fringe(level[1])) + Fringes(level[2..]);
    }
  }

  lemma {:induction false} JoinedAgrees(h: seq<byte> -> Digest, level: seq<Tree>)
    requires level != []
    ensures TopOf(h, Hashes(h, level)) == Hash(h, Joined(level))
    ensures Fringe(Joined(level)) == Fringes(level)
    decreases |level|
  {
    PairedAgrees(h, level);
    if |level| > 1 {
      JoinedAgrees(h, Paired(level));
    } else {
      assert Fringes(level) == Fringe(level[0]) + [];
    }
  }

  lemma {:induction false} FringesOfLeaves(entries: seq<Entry>)
    ensures Fringes(Leaves(entries)) == entries
  {
    if entries != [] {
      FringesOfLeaves(entries[1..]);
      assert Leaves(entries)[1..] == Leaves(entries[1..]);
    }
  }

  lemma RootIsHash(h: seq<byte> -> Digest, entries: seq<Entry>)
    requires entries != []
    ensures Root(h, entries) == Hash(h, Joined(Leaves(entries)))
    ensures Fringe(Joined(Leaves(entries))) == entries
  {
    JoinedAgrees(h, Leaves(entries));
    FringesOfLeaves(entries);
    assert LeafHashes(h, entries) == Hashes(h, Leaves(entries));
  }

  // ---- Binding ---------------------------------------------------------------------------------

  /** Two entries the leaf hash cannot tell apart differ in nothing but the offset. */
  predicate SameLeaf(d: Entry, e: Entry) {
    d == e.(offset := d.offset)
  }

  predicate SameLeaves(ds: seq<Entry>, es: seq<Entry>) {
    |ds| == |es| && forall i :: 0 <= i < |ds| ==> SameLeaf(ds[i], es[i])
  }

  /** Two distinct strings, one out of each set, with the same hash. */
  ghost predicate Collision(h: seq<byte> -> Digest, xs: set<seq<byte>>, ys: set<seq<byte>>) {
    exists x, y :: x in xs && y in ys && x != y && h(x) == h(y)
  }

  lemma LeafInputInjective(d: Entry, e: Entry)
    requires LeafInput(d) == LeafInput(e)
    ensures SameLeaf(d, e)
  {
    hide LE;
    Pow256Values();
    var x, y, n := LeafInput(d), LeafInput(e), |d.path|;
    assert |x| == 54 + |d.path| && |y| == 54 + |e.path|;
    assert x[1] == KindByte(d.kind) && y[1] == KindByte(e.kind);
    assert x[10..10 + n] == d.path && y[10..10 + n] == e.path;
    assert x[10 + n..14 + n] == LE(d.mode, 4) && y[10 + n..14 + n] == LE(e.mode, 4);
    assert x[14 + n..22 + n] == LE(d.size, 8) && y[14 + n..22 + n] == LE(e.size, 8);
    assert x[22 + n..] == d.sha256 && y[22 + n..] == e.sha256;
    LEInjective(d.mode, e.mode, 4);
    LEInjective(d.size, e.size, 8);
  }

  lemma NodeInputInjective(l: Digest, r: Digest, l': Digest, r': Digest)
    requires NodeInput(l, r) == NodeInput(l', r')
    ensures l == l' && r == r'
  {
    var x, y := NodeInput(l, r), NodeInput(l', r');
    assert x[1..33] == l && y[1..33] == l' && x[33..] == r && y[33..] == r';
  }

  /** The string hashed last for `t`. */
  function TopInput(h: seq<byte> -> Digest, t: Tree): (x: seq<byte>)
    ensures x in Inputs(h, t) && h(x) == Hash(h, t) && |x| > 1
  {
    match t
    case Leaf(e) => LeafInput(e)
    case Node(l, r) => NodeInput(Hash(h, l), Hash(h, r))
  }

  lemma SameTopInput(h: seq<byte> -> Digest, s: Tree, t: Tree)
    requires TopInput(h, s) == TopInput(h, t)
    ensures s.Leaf? <==> t.Leaf?
    ensures s.Leaf? ==> SameLeaf(s.entry, t.entry)
    ensures s.Node? ==> Hash(h, s.left) == Hash(h, t.left) && Hash(h, s.right) == Hash(h, t.right)
  {
    var x, y := TopInput(h, s), TopInput(h, t);
    assert x[0] == if s.Leaf? then LEAF_TAG else NODE_TAG;
    assert y[0] == if t.Leaf? then LEAF_TAG else NODE_TAG;
    if s.Leaf? {
      LeafInputInjective(s.entry, t.entry);
    } else {
      NodeInputInjective(Hash(h, s.left), Hash(h, s.right), Hash(h, t.left), Hash(h, t.right));
    }
  }

  /** Trees of any two shapes with the same hash have the same leaves, or two of the
      strings hashed for them collide. */
  lemma {:induction false} TreeBinding(h: seq<byte> -> Digest, s: Tree, t: Tree)
    requires Hash(h, s) == Hash(h, t)
    ensures SameLeaves(Fringe(s), Fringe(t)) || Collision(h, Inputs(h, s), Inputs(h, t))
  {
    hide TopInput, Hash, LeafInput, NodeInput;
    if TopInput(h, s) == TopInput(h, t) {
      SameTopInput(h, s, t);
      if s.Node? {
        TreeBinding(h, s.left, t.left);
        TreeBinding(h, s.right, t.right);
      }
    }
  }

  /** The strings `merkle_root` hashes. */
  function RootInputs(h: seq<byte> -> Digest, entries: seq<Entry>): set<seq<byte>> {
    if entries == [] then {[NODE_TAG]} else Inputs(h, Joined(Leaves(entries)))
  }

  /** Entry lists of any two lengths with the same root agree on everything the leaves
      hash, entry by entry, or two strings hashed for the roots collide. */
  lemma RootBinding(h: seq<byte> -> Digest, ds: seq<Entry>, es: seq<Entry>)
    requires Root(h, ds) == Root(h, es)
    ensures SameLeaves(ds, es) || Collision(h, RootInputs(h, ds), RootInputs(h, es))
  {
    if ds != [] {
      RootIsHash(h, ds);
    }
    if es != [] {
      RootIsHash(h, es);
    }
    if ds != [] && es != [] {
      TreeBinding(h, Joined(Leaves(ds)), Joined(Leaves(es)));
    } else if ds != [] {
      assert TopInput(h, Joined(Leaves(ds))) != [NODE_TAG];
    } else if es != [] {
      assert TopInput(h, Joined(Leaves(es))) != [NODE_TAG];
    }
  }

  // ---- Which root it is ------------------------------------------------------------------------

  /** What is hashed for a leaf: tag, kind, the path with its length in front, mode, size
      and content digest, integers low byte first. */
  lemma KnownLeafInput(digest: Digest)
    ensures LeafInput(Entry(Dir, [0x61, 0x62], 0x0102_0304, 0x0102_0304_0506_0708, 7, digest))
         == [0, 1] + [2, 0, 0, 0, 0, 0, 0, 0] + [0x61, 0x62] + [4, 3, 2, 1] + [8, 7, 6, 5, 4, 3, 2, 1] + digest
  {
    hide LE;
    KnownLE();
    ByteLE(2);
  }

  /** The roots of no, one, two, three and five entries, spelled out: nodes are hashed
      behind a one, left before right, and an odd last node goes up as it is. */
  lemma {:induction false} KnownRoots(h: seq<byte> -> Digest, a: Entry, b: Entry, c: Entry, d: Entry, e: Entry)
    ensures Root(h, []) == h([1]) && Root(h, [a]) == h(LeafInput(a))
    ensures var ab := h([1] + h(LeafInput(a)) + h(LeafInput(b)));
            var cd := h([1] + h(LeafInput(c)) + h(LeafInput(d)));
            && Root(h, [a, b]) == ab
            && Root(h, [a, b, c]) == h([1] + ab + h(LeafInput(c)))
            && Root(h, [a, b, c, d, e]) == h([1] + h([1] + ab + cd) + h(LeafInput(e)))
  {
    hide LeafInput;
    var la, lb, lc, ld, le := h(LeafInput(a)), h(LeafInput(b)), h(LeafInput(c)), h(LeafInput(d)), h(LeafInput(e));
    assert LeafHashes(h, [a]) == [la] && LeafHashes(h, [a, b]) == [la, lb];
    assert LeafHashes(h, [a, b, c]) == [la, lb, lc] && LeafHashes(h, [a, b, c, d, e]) == [la, lb, lc, ld, le];
    PairUp(h, la, lb);
    OddUp(h, lc, ld, le);
    OddUp(h, la, lb, lc);
    var ab, cd := h(NodeInput(la, lb)), h(NodeInput(lc, ld));
    assert [la, lb, lc, ld, le][2..] == [lc, ld, le] && [lc, ld, le][2..] == [le];
    assert NextLevel(h, [la, lb, lc, ld, le]) == [ab, cd, le];
    OddUp(h, ab, cd, le);
    TopOfTwo(h, la, lb);
    TopOfTwo(h, ab, lc);
    TopOfTwo(h, h(NodeInput(ab, cd)), le);
    TopIsAbove(h, [la, lb, lc]);
    TopIsAbove(h, [la, lb, lc, ld, le]);
    TopIsAbove(h, [ab, cd, le]);
  }

  lemma {:induction false} PairUp(h: seq<byte> -> Digest, l: Digest, r: Digest)
    ensures NextLevel(h, [l, r]) == [h(NodeInput(l, r))]
  {
    assert [l, r][2..] == [];
  }

  lemma {:induction false} OddUp(h: seq<byte> -> Digest, l: Digest, r: Digest, last: Digest)
    ensures NextLevel(h, [l, r, last]) == [h(NodeInput(l, r)), last]
  {
    assert [l, r, last][2..] == [last];
  }

  lemma {:induction false} TopOfTwo(h: seq<byte> -> Digest, l: Digest, r: Digest)
    ensures TopOf(h, [l, r]) == h(NodeInput(l, r))
  {
    PairUp(h, l, r);
    assert TopOf(h, [h(NodeInput(l, r))]) == h(NodeInput(l, r));
  }
}
