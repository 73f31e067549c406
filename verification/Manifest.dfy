/** The manifest: its binary form, the checks `decode` makes, and what an accepted
    manifest guarantees. */
module Manifest {
  import opened Bytes
  import opened Wire
  import opened Paths
  import opened Merkle

  const MANIFEST_VERSION: byte := 1
  const MANIFEST_MAX_BYTES := 0x400_0000
  const MANIFEST_MAX_ENTRIES := 4_000_000

  datatype Manifest = Manifest(entries: seq<Entry>, totalLen: u64, merkleRoot: Digest)

  datatype ManifestError =
    Cut | UnsupportedVersion | TooManyEntries | BadDigestLength | UnknownKind | UnsafePath
    | DirWithData | NotContiguous | LengthOverflow | TotalDisagrees | RootDisagrees

  /** SHA-256, and `String::from_utf8_lossy` on the bytes of a path. */
  datatype Env = Env(hash: seq<byte> -> Digest, lossy: seq<byte> -> Path)

  // ---- Layout of the file region ----------------------------------------------------------

  /** The check `decode` makes on one entry when the files so far end at `at`. */
  function Place(e: Entry, at: u64): Result<u64, ManifestError> {
    match e.kind
    case Dir => if e.size != 0 || e.offset != 0 then Err(DirWithData) else Ok(at)
    case File =>
      if e.offset != at then Err(NotContiguous)
      else if at + e.size >= U64_LIMIT then Err(LengthOverflow)
      else Ok(at + e.size)
  }

  /** Every entry placed, the file region ending at `end`. */
  predicate LaidOut(entries: seq<Entry>, at: u64, end: u64) {
    if entries == [] then at == end
    else Place(entries[0], at).Ok? && LaidOut(entries[1..], Place(entries[0], at).value, end)
  }

  predicate Holds(e: Entry, x: nat) {
    e.kind == File && e.offset <= x < e.offset + e.size
  }

  predicate Owned(entries: seq<Entry>, x: nat) {
    exists i :: 0 <= i < |entries| && Holds(entries[i], x)
  }

  /** The extents of an accepted manifest's files partition the file region: each byte
      of it lies in exactly one file, and no file reaches past its end. */
  lemma {:induction false} ExtentsPartition(entries: seq<Entry>, at: u64, end: u64)
    requires LaidOut(entries, at, end)
    ensures at <= end
    ensures forall i :: 0 <= i < |entries| && entries[i].kind == File ==>
              at <= entries[i].offset && entries[i].offset + entries[i].size <= end
    ensures forall x: nat :: at <= x < end ==> Owned(entries, x)
    ensures forall x: nat, i, j ::
              0 <= i < |entries| && 0 <= j < |entries| && Holds(entries[i], x) && Holds(entries[j], x) ==> i == j
  {
    if entries != [] {
      var e, rest := entries[0], entries[1..];
      var next := Place(e, at).value;
      ExtentsPartition(rest, next, end);
      assert forall i :: 0 < i < |entries| ==> entries[i] == rest[i - 1];
      forall x: nat | at <= x < end
        ensures Owned(entries, x)
      {
        if x < next {
          assert Holds(entries[0], x);
        } else {
          assert Owned(rest, x);
          var i :| 0 <= i < |rest| && Holds(rest[i], x);
          assert Holds(entries[i + 1], x);
        }
      }
    }
  }

  lemma {:induction false} LaidOutOffsets(ds: seq<Entry>, es: seq<Entry>, at: u64, end: u64, end': u64)
    requires LaidOut(ds, at, end) && LaidOut(es, at, end') && SameLeaves(ds, es)
    ensures ds == es && end == end'
  {
    if ds != [] {
      assert SameLeaf(ds[0], es[0]);
      assert forall i :: 0 <= i < |ds| - 1 ==> SameLeaf(ds[1..][i], es[1..][i]);
      LaidOutOffsets(ds[1..], es[1..], Place(ds[0], at).value, end, end');
      assert ds == [ds[0]] + ds[1..] && es == [es[0]] + es[1..];
    }
  }

  lemma {:induction false} LaidOutSnoc(entries: seq<Entry>, e: Entry, at: u64, mid: u64)
    requires LaidOut(entries, at, mid) && Place(e, mid).Ok?
    ensures LaidOut(entries + [e], at, Place(e, mid).value)
  {
    if entries == [] {
      assert (entries + [e])[1..] == [];
    } else {
      LaidOutSnoc(entries[1..], e, Place(entries[0], at).value, mid);
      assert (entries + [e])[1..] == entries[1..] + [e];
    }
  }

  // ---- Printing -----------------------------------------------------------------------------

  function EntryBytes(e: Entry): seq<byte> {
    [KindByte(e.kind)] + LE(e.mode, 4) + LE(e.size, 8) + LE(e.offset, 8)
    + Prefixed(e.sha256) + Prefixed(e.path)
  }

  function EntriesBytes(es: seq<Entry>): seq<byte> {
    if es == [] then [] else EntryBytes(es[0]) + EntriesBytes(es[1..])
  }

  function HeadBytes(m: Manifest): (b: seq<byte>)
    ensures |b| == 47
  {
    [MANIFEST_VERSION] + LE(|m.entries|, 4) + LE(m.totalLen, 8) + Prefixed(m.merkleRoot)
  }

  function ManifestBytes(m: Manifest): seq<byte> {
    HeadBytes(m) + EntriesBytes(m.entries)
  }

  /** `put_str` panics on longer paths. */
  predicate PathsFit(es: seq<Entry>) {
    forall i :: 0 <= i < |es| ==> |es[i].path| <= U16_MAX
  }

  lemma {:induction false} EntriesBytesSnoc(es: seq<Entry>, e: Entry)
    ensures EntriesBytes(es + [e]) == EntriesBytes(es) + EntryBytes(e)
  {
    hide EntryBytes;
    if es == [] {
      assert (es + [e])[1..] == [];
    } else {
      EntriesBytesSnoc(es[1..], e);
      assert (es + [e])[1..] == es[1..] + [e];
    }
  }

  method PutEntry(buf: Buffer, e: Entry)
    requires |e.path| <= U16_MAX
    modifies buf
    ensures buf.bytes == old(buf.bytes) + EntryBytes(e)
  {
    hide LE;
    buf.PutU8(KindByte(e.kind));
    buf.PutLE(e.mode, 4);
    buf.PutLE(e.size, 8);
    buf.PutLE(e.offset, 8);
    buf.PutBytes(e.sha256);
    buf.PutBytes(e.path);
  }

  /** `encode`. */
  method Encode(m: Manifest) returns (bytes: seq<byte>)
    requires PathsFit(m.entries)
    ensures bytes == ManifestBytes(m)
  {
    hide LE, EntryBytes;
    var buf := new Buffer();
    buf.PutU8(MANIFEST_VERSION);
    buf.PutLE(|m.entries|, 4);
    buf.PutLE(m.totalLen, 8);
    buf.PutBytes(m.merkleRoot);
    assert buf.bytes == HeadBytes(m);
    for i := 0 to |m.entries|
      invariant buf.bytes == HeadBytes(m) + EntriesBytes(m.entries[..i])
    {
      PutEntry(buf, m.entries[i]);
      EntriesBytesSnoc(m.entries[..i], m.entries[i]);
      assert m.entries[..i + 1] == m.entries[..i] + [m.entries[i]];
    }
    assert m.entries[..|m.entries|] == m.entries;
    bytes := buf.bytes;
  }

  // ---- Parsing -----------------------------------------------------------------------------

  function Lift<T>(r: Result<T, WireError>): Result<T, ManifestError> {
    match r case Ok(v) => Ok(v) case Err(_) => Err(Cut)
  }

  function KindOf(v: nat): Result<EntryKind, ManifestError> {
    if v == 0 then Ok(File) else if v == 1 then Ok(Dir) else Err(UnknownKind)
  }

  /** One entry at `off`, path validated. */
  function ParseEntry(env: Env, buf: seq<byte>, off: nat): Result<At<Entry>, ManifestError> {
    Pow256Values();
    var k :- Lift(GetLE(buf, off, 1));
    var kind :- KindOf(k.value);
    var mode :- Lift(GetLE(buf, k.off, 4));
    var size :- Lift(GetLE(buf, mode.off, 8));
    var offset :- Lift(GetLE(buf, size.off, 8));
    var sha :- Lift(GetBytes(buf, offset.off));
    if |sha.value| != 32 then Err(BadDigestLength)
    else
      var raw :- Lift(GetBytes(buf, sha.off));
      var path := env.lossy(raw.value);
      if !SafePath(path) then Err(UnsafePath)
      else Ok(At(Entry(kind, path, mode.value, size.value, offset.value, sha.value), raw.off))
  }

  /** `n` entries from `off`, the files before them ending at `at`. */
  function ParseEntries(env: Env, buf: seq<byte>, off: nat, n: nat, at: u64):
    (r: Result<(seq<Entry>, u64), ManifestError>)
    ensures r.Ok? ==> |r.value.0| == n && LaidOut(r.value.0, at, r.value.1)
    decreases n
  {
    if n == 0 then Ok(([], at))
    else
      var e :- ParseEntry(env, buf, off);
      var next :- Place(e.value, at);
      var rest :- ParseEntries(env, buf, e.off, n - 1, next);
      Ok(([e.value] + rest.0, rest.1))
  }

  function Head(buf: seq<byte>): Result<(nat, u64, Digest), ManifestError> {
    Pow256Values();
    var version :- Lift(GetLE(buf, 0, 1));
    if version.value != MANIFEST_VERSION then Err(UnsupportedVersion)
    else
      var count :- Lift(GetLE(buf, version.off, 4));
      if count.value > MANIFEST_MAX_ENTRIES then Err(TooManyEntries)
      else
        var total :- Lift(GetLE(buf, count.off, 8));
        var root :- Lift(GetBytes(buf, total.off));
        if |root.value| != 32 then Err(BadDigestLength) else Ok((count.value, total.value, root.value))
  }

  /** `Manifest::decode` as a function; bytes after the last entry are ignored. */
  function Decoded(env: Env, buf: seq<byte>): Result<Manifest, ManifestError> {
    var head :- Head(buf);
    var body :- ParseEntries(env, buf, 47, head.0, 0);
    if body.1 != head.1 then Err(TotalDisagrees)
    else if Root(env.hash, body.0) != head.2 then Err(RootDisagrees)
    else Ok(Manifest(body.0, head.1, head.2))
  }

  // ---- The code of decode --------------------------------------------------------------------

  method TakeEntry(env: Env, c: Cursor) returns (r: Result<Entry, ManifestError>)
    modifies c
    ensures match ParseEntry(env, c.buf, old(c.off))
            case Ok(a) => r == Ok(a.value) && c.off == a.off
            case Err(e) => r == Err(e)
  {
    hide SafePath, FromLE;
    Pow256Values();
    var k := c.TakeLE(1);
    if k.Err? { return Err(Cut); }
    var kind :- KindOf(k.value);
    var mode := c.TakeLE(4);
    if mode.Err? { return Err(Cut); }
    var size := c.TakeLE(8);
    if size.Err? { return Err(Cut); }
    var offset := c.TakeLE(8);
    if offset.Err? { return Err(Cut); }
    var sha := c.TakeBytes();
    if sha.Err? { return Err(Cut); }
    if |sha.value| != 32 {
      return Err(BadDigestLength);
    }
    var raw := c.TakeBytes();
    if raw.Err? { return Err(Cut); }
    var path := env.lossy(raw.value);
    if !SafePath(path) {
      return Err(UnsafePath);
    }
    r := Ok(Entry(kind, path, mode.value, size.value, offset.value, sha.value));
  }

  method TakeHead(c: Cursor) returns (r: Result<(nat, u64, Digest), ManifestError>)
    requires c.off == 0
    modifies c
    ensures r == Head(c.buf) && (r.Ok? ==> c.off == 47)
  {
    hide FromLE;
    Pow256Values();
    var version := c.TakeLE(1);
    if version.Err? { return Err(Cut); }
    if version.value != MANIFEST_VERSION {
      return Err(UnsupportedVersion);
    }
    var count := c.TakeLE(4);
    if count.Err? { return Err(Cut); }
    if count.value > MANIFEST_MAX_ENTRIES {
      return Err(TooManyEntries);
    }
    var total := c.TakeLE(8);
    if total.Err? { return Err(Cut); }
    var root := c.TakeBytes();
    if root.Err? { return Err(Cut); }
    if |root.value| != 32 {
      return Err(BadDigestLength);
    }
    r := Ok((count.value, total.value, root.value));
  }

  /** What has been parsed, and what parsing the rest will come to, make up `whole`. */
  ghost predicate Parsing(env: Env, buf: seq<byte>, whole: Result<(seq<Entry>, u64), ManifestError>,
                          entries: seq<Entry>, off: nat, left: nat, at: u64)
  {
    var rest := ParseEntries(env, buf, off, left, at);
    whole == if rest.Ok? then Ok((entries + rest.value.0, rest.value.1)) else rest
  }

  lemma {:induction false} ParsingStarts(env: Env, buf: seq<byte>, off: nat, count: nat, at: u64)
    ensures Parsing(env, buf, ParseEntries(env, buf, off, count, at), [], off, count, at)
  {
    hide ParseEntries;
    var whole := ParseEntries(env, buf, off, count, at);
    assert whole.Ok? ==> [] + whole.value.0 == whole.value.0;
  }

  lemma {:induction false} ParsingGoesOn(env: Env, buf: seq<byte>, whole: Result<(seq<Entry>, u64), ManifestError>,
                                         entries: seq<Entry>, off: nat, left: nat, at: u64)
    requires left > 0 && Parsing(env, buf, whole, entries, off, left, at)
    ensures match ParseEntry(env, buf, off)
            case Err(x) => whole == Err(x)
            case Ok(a) =>
              match Place(a.value, at)
              case Err(x) => whole == Err(x)
              case Ok(next) => Parsing(env, buf, whole, entries + [a.value], a.off, left - 1, next)
  {
    hide ParseEntry, Place;
    var parsed := ParseEntry(env, buf, off);
    if parsed.Ok? && Place(parsed.value.value, at).Ok? {
      var e := parsed.value.value;
      var rest := ParseEntries(env, buf, parsed.value.off, left - 1, Place(e, at).value);
      assert rest.Ok? ==> entries + ([e] + rest.value.0) == (entries + [e]) + rest.value.0;
    }
  }

  lemma {:induction false} ParsingEnds(env: Env, buf: seq<byte>, whole: Result<(seq<Entry>, u64), ManifestError>,
                                       entries: seq<Entry>, off: nat, at: u64)
    requires Parsing(env, buf, whole, entries, off, 0, at)
    ensures whole == Ok((entries, at))
  {
    assert entries + [] == entries;
  }

  method Decode(env: Env, buf: seq<byte>) returns (r: Result<Manifest, ManifestError>)
    ensures r == Decoded(env, buf)
  {
    hide ParseEntry, ParseEntries, Parsing, Place, Head, Root;
    var c := new Cursor(buf);
    var head :- TakeHead(c);
    var (count, totalLen, root) := head;
    var entries: seq<Entry> := [];
    var expectedOffset: u64 := 0;
    ghost var whole := ParseEntries(env, buf, 47, count, 0);
    ParsingStarts(env, buf, 47, count, 0);
    for i := 0 to count
      invariant c.buf == buf
      invariant Parsing(env, buf, whole, entries, c.off, count - i, expectedOffset)
    {
      ParsingGoesOn(env, buf, whole, entries, c.off, count - i, expectedOffset);
      var e :- TakeEntry(env, c);
      expectedOffset :- Place(e, expectedOffset);
      entries := entries + [e];
    }
    ParsingEnds(env, buf, whole, entries, c.off, expectedOffset);
    if expectedOffset != totalLen {
      return Err(TotalDisagrees);
    }
    var computed := MerkleRoot(env.hash, entries);
    if computed != root {
      return Err(RootDisagrees);
    }
    r := Ok(Manifest(entries, totalLen, root));
  }

  // ---- Round trips and binding ----------------------------------------------------------------

  /** What a manifest must satisfy to be written and read back: paths that validate, fit
      their length field and are UTF-8, files laid end to end, and the right root. */
  ghost predicate WellFormed(env: Env, m: Manifest) {
    && |m.entries| <= MANIFEST_MAX_ENTRIES
    && PathsFit(m.entries)
    && (forall i :: 0 <= i < |m.entries| ==> Portable(env, m.entries[i]))
    && LaidOut(m.entries, 0, m.totalLen)
    && m.merkleRoot == Root(env.hash, m.entries)
  }

  ghost predicate Portable(env: Env, e: Entry) {
    SafePath(e.path) && env.lossy(e.path) == e.path
  }

  /** Where the fields of an encoded entry lie. */
  lemma EntrySlices(buf: seq<byte>, off: nat, e: Entry)
    requires off <= |buf| && EntryBytes(e) <= buf[off..] && |e.path| <= U16_MAX
    ensures |EntryBytes(e)| == 57 + |e.path| && off + 57 + |e.path| <= |buf|
    ensures buf[off..off + 1] == [KindByte(e.kind)] && buf[off + 1..off + 5] == LE(e.mode, 4)
    ensures buf[off + 5..off + 13] == LE(e.size, 8) && buf[off + 13..off + 21] == LE(e.offset, 8)
    ensures buf[off + 21..off + 55] == Prefixed(e.sha256)
    ensures buf[off + 55..off + 57 + |e.path|] == Prefixed(e.path)
  {
    hide LE;
    var b := EntryBytes(e);
    assert |b| == 57 + |e.path| && buf[off..off + |b|] == b;
    assert buf[off..off + 1] == b[0..1];
    assert buf[off + 1..off + 5] == b[1..5];
    assert buf[off + 5..off + 13] == b[5..13];
    assert buf[off + 13..off + 21] == b[13..21];
    assert buf[off + 21..off + 55] == b[21..55];
    assert buf[off + 55..off + |b|] == b[55..];
  }

  lemma ParseOfEntryBytes(env: Env, buf: seq<byte>, off: nat, e: Entry)
    requires off <= |buf| && EntryBytes(e) <= buf[off..]
    requires |e.path| <= U16_MAX && Portable(env, e)
    ensures ParseEntry(env, buf, off) == Ok(At(e, off + |EntryBytes(e)|))
  {
    hide LE, FromLE, SafePath, EntryBytes;
    Pow256Values();
    EntrySlices(buf, off, e);
    FromLEofByte(KindByte(e.kind));
    GetLEofLE(buf, off + 1, e.mode, 4);
    GetLEofLE(buf, off + 5, e.size, 8);
    GetLEofLE(buf, off + 13, e.offset, 8);
    GetBytesOfPrefixed(buf, off + 21, e.sha256);
    GetBytesOfPrefixed(buf, off + 55, e.path);
  }

  lemma FromLEofByte(b: byte)
    ensures FromLE([b]) == b
  {
    assert FromLE([b]) == b + 256 * FromLE([b][1..]);
  }

  lemma FrontAndBack(a: seq<byte>, b: seq<byte>, s: seq<byte>)
    requires a + b <= s
    ensures a <= s && b <= s[|a|..]
  {
    assert s[|a|..][..|b|] == (a + b)[|a|..];
  }

  /** The first entry's bytes, and after them those of the others. */
  lemma {:induction false} EntriesFront(env: Env, buf: seq<byte>, off: nat, es: seq<Entry>)
    requires off <= |buf| && es != [] && EntriesBytes(es) <= buf[off..]
    requires PathsFit(es) && forall i :: 0 <= i < |es| ==> Portable(env, es[i])
    ensures var next := off + |EntryBytes(es[0])|;
            && EntryBytes(es[0]) <= buf[off..] && next <= |buf| && EntriesBytes(es[1..]) <= buf[next..]
    ensures |es[0].path| <= U16_MAX && Portable(env, es[0])
    ensures PathsFit(es[1..]) && forall i :: 0 <= i < |es[1..]| ==> Portable(env, es[1..][i])
  {
    hide EntryBytes, Portable;
    var b := EntryBytes(es[0]);
    FrontAndBack(b, EntriesBytes(es[1..]), buf[off..]);
    assert buf[off + |b|..] == buf[off..][|b|..];
  }

  lemma {:induction false} ParseOfEntriesBytes(env: Env, buf: seq<byte>, off: nat, es: seq<Entry>, at: u64, end: u64)
    requires off <= |buf| && EntriesBytes(es) <= buf[off..]
    requires PathsFit(es) && forall i :: 0 <= i < |es| ==> Portable(env, es[i])
    requires LaidOut(es, at, end)
    ensures ParseEntries(env, buf, off, |es|, at) == Ok((es, end))
    decreases |es|
  {
    hide ParseEntry, EntryBytes, Portable, Place, PathsFit;
    if es != [] {
      hide EntriesBytes, ParseEntries;
      EntriesFront(env, buf, off, es);
      ParseOfEntryBytes(env, buf, off, es[0]);
      ParseOfEntriesBytes(env, buf, off + |EntryBytes(es[0])|, es[1..], Place(es[0], at).value, end);
      ParseFirst(env, buf, off, es, at);
    }
  }

  lemma {:induction false} ParseFirst(env: Env, buf: seq<byte>, off: nat, es: seq<Entry>, at: u64)
    requires es != [] && ParseEntry(env, buf, off) == Ok(At(es[0], off + |EntryBytes(es[0])|)) && Place(es[0], at).Ok?
    ensures var rest := ParseEntries(env, buf, off + |EntryBytes(es[0])|, |es| - 1, Place(es[0], at).value);
            rest.Ok? && rest.value.0 == es[1..] ==>
              ParseEntries(env, buf, off, |es|, at) == Ok((es, rest.value.1))
  {
    hide ParseEntry, EntryBytes, Place;
    assert es == [es[0]] + es[1..];
  }

  lemma HeadOfHeadBytes(m: Manifest, rest: seq<byte>)
    requires |m.entries| <= MANIFEST_MAX_ENTRIES
    ensures Head(HeadBytes(m) + rest) == Ok((|m.entries|, m.totalLen, m.merkleRoot))
  {
    hide LE, FromLE;
    Pow256Values();
    var buf := HeadBytes(m) + rest;
    assert buf[0..1] == [MANIFEST_VERSION];
    FromLEofByte(MANIFEST_VERSION);
    assert buf[1..5] == LE(|m.entries|, 4) && buf[5..13] == LE(m.totalLen, 8);
    assert buf[13..47] == Prefixed(m.merkleRoot);
    GetLEofLE(buf, 1, |m.entries|, 4);
    GetLEofLE(buf, 5, m.totalLen, 8);
    GetBytesOfPrefixed(buf, 13, m.merkleRoot);
  }

  /** Every well-formed manifest survives the wire, whatever follows it. */
  lemma DecodeOfEncode(env: Env, m: Manifest, rest: seq<byte>)
    requires WellFormed(env, m)
    ensures Decoded(env, ManifestBytes(m) + rest) == Ok(m)
  {
    hide Head, HeadBytes, ParseEntries;
    var buf := ManifestBytes(m) + rest;
    assert buf == HeadBytes(m) + (EntriesBytes(m.entries) + rest);
    HeadOfHeadBytes(m, EntriesBytes(m.entries) + rest);
    assert buf[47..] == EntriesBytes(m.entries) + rest;
    ParseOfEntriesBytes(env, buf, 47, m.entries, 0, m.totalLen);
  }

  /** The same decoder with paths taken as they stand. */
  function Raw(env: Env): Env {
    env.(lossy := s => s)
  }

  lemma EntryBytesOfParse(env: Env, buf: seq<byte>, off: nat)
    requires ParseEntry(Raw(env), buf, off).Ok?
    ensures var a := ParseEntry(Raw(env), buf, off).value;
            && off < a.off <= |buf| && SafePath(a.value.path) && |a.value.path| <= U16_MAX
            && buf[off..a.off] == EntryBytes(a.value)
  {
    hide LE, SafePath;
    Pow256Values();
    var a := ParseEntry(Raw(env), buf, off).value;
    LEofGetLE(buf, off, 1);
    LEofGetLE(buf, off + 1, 4);
    LEofGetLE(buf, off + 5, 8);
    LEofGetLE(buf, off + 13, 8);
    PrefixedOfGetBytes(buf, off + 21);
    PrefixedOfGetBytes(buf, off + 55);
    assert buf[off..off + 1] == [buf[off]];
    FromLEofByte(buf[off]);
    Adjacent(buf, off, off + 1, off + 5);
    Adjacent(buf, off, off + 5, off + 13);
    Adjacent(buf, off, off + 13, off + 21);
    Adjacent(buf, off, off + 21, off + 55);
    Adjacent(buf, off, off + 55, a.off);
  }

  lemma Adjacent(buf: seq<byte>, i: nat, j: nat, k: nat)
    requires i <= j <= k <= |buf|
    ensures buf[i..k] == buf[i..j] + buf[j..k]
  {
  }

  lemma {:induction false} EntriesBytesOfParse(env: Env, buf: seq<byte>, off: nat, n: nat, at: u64)
    requires off <= |buf| && ParseEntries(Raw(env), buf, off, n, at).Ok?
    ensures var es := ParseEntries(Raw(env), buf, off, n, at).value.0;
            && EntriesBytes(es) <= buf[off..] && PathsFit(es)
            && forall i :: 0 <= i < |es| ==> SafePath(es[i].path)
    decreases n
  {
    hide ParseEntry, EntryBytes, SafePath;
    if n > 0 {
      EntryBytesOfParse(env, buf, off);
      var a := ParseEntry(Raw(env), buf, off).value;
      var next := Place(a.value, at).value;
      EntriesBytesOfParse(env, buf, a.off, n - 1, next);
      var es := ParseEntries(Raw(env), buf, a.off, n - 1, next).value.0;
      assert ([a.value] + es)[1..] == es;
      assert buf[off..] == buf[off..a.off] + buf[a.off..];
    }
  }

  lemma HeadBytesOfHead(buf: seq<byte>, m: Manifest)
    requires Head(buf) == Ok((|m.entries|, m.totalLen, m.merkleRoot))
    ensures |buf| >= 47 && buf[..47] == HeadBytes(m) && |m.entries| <= MANIFEST_MAX_ENTRIES
  {
    hide LE;
    Pow256Values();
    LEofGetLE(buf, 0, 1);
    LEofGetLE(buf, 1, 4);
    LEofGetLE(buf, 5, 8);
    PrefixedOfGetBytes(buf, 13);
    assert buf[0..1] == [buf[0]];
    FromLEofByte(buf[0]);
    assert buf[..47] == buf[0..1] + buf[1..5] + buf[5..13] + buf[13..47];
  }

  /** An accepted buffer begins with the encoding of what it decodes to exactly when its
      paths were UTF-8 to begin with, so that decoding replaced nothing in them. */
  lemma EncodeOfDecode(env: Env, buf: seq<byte>, m: Manifest)
    requires Decoded(env, buf) == Ok(m)
    ensures PathsFit(m.entries) && ManifestBytes(m) <= buf <==> Decoded(Raw(env), buf) == Ok(m)
  {
    hide Head, HeadBytes, ParseEntries, EntriesBytes, SafePath;
    HeadBytesOfHead(buf, m);
    if Decoded(Raw(env), buf) == Ok(m) {
      EntriesBytesOfParse(env, buf, 47, |m.entries|, 0);
      assert buf == buf[..47] + buf[47..];
    }
    if PathsFit(m.entries) && ManifestBytes(m) <= buf {
      PathsAreSafe(env, buf, 47, |m.entries|, 0);
      DecodeOfEncode(Raw(env), m, buf[|ManifestBytes(m)|..]);
      assert ManifestBytes(m) + buf[|ManifestBytes(m)|..] == buf;
    }
  }

  lemma EntryPathIsSafe(env: Env, buf: seq<byte>, off: nat)
    requires ParseEntry(env, buf, off).Ok?
    ensures SafePath(ParseEntry(env, buf, off).value.value.path)
  {
    hide SafePath;
  }

  lemma {:induction false} PathsAreSafe(env: Env, buf: seq<byte>, off: nat, n: nat, at: u64)
    requires ParseEntries(env, buf, off, n, at).Ok?
    ensures var es := ParseEntries(env, buf, off, n, at).value.0;
            forall i :: 0 <= i < |es| ==> SafePath(es[i].path)
    decreases n
  {
    hide SafePath, ParseEntry;
    if n > 0 {
      var a := ParseEntry(env, buf, off).value;
      EntryPathIsSafe(env, buf, off);
      PathsAreSafe(env, buf, a.off, n - 1, Place(a.value, at).value);
    }
  }

  /** Whatever buffer it came from, an accepted manifest lays its files end to end over
      `[0, total_len)`, names only safe paths and carries the root of its entries. */
  lemma AcceptedIsSound(env: Env, buf: seq<byte>, m: Manifest)
    requires Decoded(env, buf) == Ok(m)
    ensures LaidOut(m.entries, 0, m.totalLen)
    ensures forall i :: 0 <= i < |m.entries| ==> SafePath(m.entries[i].path)
    ensures m.merkleRoot == Root(env.hash, m.entries)
    ensures |m.entries| <= 4_000_000
  {
    hide SafePath, ParseEntry;
    PathsAreSafe(env, buf, 47, |m.entries|, 0);
  }

  /** Two accepted manifests with the same root are equal in every field, the offsets
      and lengths the leaves do not hash included, or two strings hashed while computing
      their roots collide. */
  lemma RootBindsManifest(env: Env, buf: seq<byte>, buf': seq<byte>, m: Manifest, m': Manifest)
    requires Decoded(env, buf) == Ok(m) && Decoded(env, buf') == Ok(m')
    requires m.merkleRoot == m'.merkleRoot
    ensures m == m'
         || Collision(env.hash, RootInputs(env.hash, m.entries), RootInputs(env.hash, m'.entries))
  {
    hide Root, RootInputs, Collision, Head, ParseEntry;
    AcceptedIsSound(env, buf, m);
    AcceptedIsSound(env, buf', m');
    RootBinding(env.hash, m.entries, m'.entries);
    if SameLeaves(m.entries, m'.entries) {
      LaidOutOffsets(m.entries, m'.entries, 0, m.totalLen, m'.totalLen);
    }
  }

  // ---- Byte by byte ----------------------------------------------------------------------------

  /** An entry: kind, mode, size, offset, and the digest and the path with their lengths. */
  lemma KnownEntry(digest: Digest)
    ensures EntryBytes(Entry(Dir, [0x61, 0x62], 0x0102_0304, 0x0102_0304_0506_0708, 5, digest))
         == [1] + [4, 3, 2, 1] + [8, 7, 6, 5, 4, 3, 2, 1] + [5, 0, 0, 0, 0, 0, 0, 0]
          + [32, 0] + digest + [2, 0] + [0x61, 0x62]
  {
    hide LE;
    KnownLE();
    ByteLE(2);
    ByteLE(5);
    ByteLE(32);
  }

  /** The head: version, count, total length, root. */
  lemma KnownHead(m: Manifest)
    requires |m.entries| == 0x0102_0304 && m.totalLen == 0x0102_0304_0506_0708
    ensures HeadBytes(m)
         == [1] + [4, 3, 2, 1] + [8, 7, 6, 5, 4, 3, 2, 1] + [32, 0] + m.merkleRoot
  {
    hide LE;
    KnownLE();
    ByteLE(32);
  }

  /** Directories of a laid-out manifest carry no data. */
  lemma {:induction false} DirsCarryNothing(entries: seq<Entry>, at: u64, end: u64, i: nat)
    requires LaidOut(entries, at, end) && i < |entries| && entries[i].kind == Dir
    ensures entries[i].size == 0 && entries[i].offset == 0
  {
    if i > 0 {
      DirsCarryNothing(entries[1..], Place(entries[0], at).value, end, i - 1);
    }
  }
}
