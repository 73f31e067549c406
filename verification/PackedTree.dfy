/** The sender's virtual packed stream: a window of it is read straight out of the
    files it spans, and equals the same window of the flat byte string. */
module PackedTree {
  import opened Bytes
  import opened Paths
  import opened Merkle
  import opened Manifest

  /** A non-empty file of the tree: where its bytes lie in the file region. */
  datatype Extent = Extent(off: nat, size: nat, path: Path)

  /** The files below the tree root, as `File::open` sees them. */
  type Disk = map<Path, seq<byte>>

  datatype ReadError = OutOfBounds | PastEnd | NotFound | ShortFile

  // ---- The flat byte string -------------------------------------------------------------------

  function Extents(entries: seq<Entry>): seq<Extent> {
    if entries == [] then []
    else
      var e := entries[0];
      (if e.kind == File && e.size > 0 then [Extent(e.offset, e.size, e.path)] else [])
      + Extents(entries[1..])
  }

  /** Extents lying end to end over `[at, end)`. */
  predicate EndToEnd(files: seq<Extent>, at: nat, end: nat) {
    if files == [] then at == end
    else files[0].off == at && files[0].size > 0 && EndToEnd(files[1..], at + files[0].size, end)
  }

  predicate Backed(files: seq<Extent>, disk: Disk) {
    forall i :: 0 <= i < |files| ==> files[i].path in disk && files[i].size <= |disk[files[i].path]|
  }

  /** The file contents, concatenated. */
  function Region(files: seq<Extent>, disk: Disk): seq<byte>
    requires Backed(files, disk)
  {
    if files == [] then []
    else disk[files[0].path][..files[0].size] + Region(files[1..], disk)
  }

  lemma {:induction false} ExtentsEndToEnd(entries: seq<Entry>, at: u64, end: u64)
    requires LaidOut(entries, at, end)
    ensures EndToEnd(Extents(entries), at, end)
  {
    if entries != [] {
      ExtentsEndToEnd(entries[1..], Place(entries[0], at).value, end);
      var rest := Extents(entries[1..]);
      var e := entries[0];
      if e.kind == File && e.size > 0 {
        assert ([Extent(e.offset, e.size, e.path)] + rest)[1..] == rest;
      } else {
        assert Extents(entries) == rest;
      }
    }
  }

  lemma ShiftWindow(a: seq<byte>, b: seq<byte>, lo: nat, n: nat)
    requires lo + n <= |b|
    ensures (a + b)[|a| + lo..|a| + lo + n] == b[lo..lo + n]
  {
  }

  /** Each extent starts where the ones before it end, and is its part of the region. */
  lemma {:induction false} ExtentOf(files: seq<Extent>, disk: Disk, at: nat, end: nat, i: nat)
    requires EndToEnd(files, at, end) && i < |files|
    ensures at <= files[i].off && files[i].size > 0 && files[i].off + files[i].size <= end
    ensures i == 0 ==> files[i].off == at
    ensures i + 1 < |files| ==> files[i + 1].off == files[i].off + files[i].size
    ensures i + 1 == |files| ==> end == files[i].off + files[i].size
    ensures Backed(files, disk) ==>
      && files[i].path in disk && files[i].size <= |disk[files[i].path]|
      && |Region(files, disk)| == end - at
      && Region(files, disk)[files[i].off - at..files[i].off - at + files[i].size]
         == disk[files[i].path][..files[i].size]
  {
    var rest, mid := files[1..], at + files[0].size;
    if i > 0 {
      ExtentOf(rest, disk, mid, end, i - 1);
      assert files[i] == rest[i - 1];
    } else if rest != [] {
      ExtentOf(rest, disk, mid, end, 0);
    }
    if Backed(files, disk) {
      var head := disk[files[0].path][..files[0].size];
      assert Region(files, disk) == head + Region(rest, disk);
      if i > 0 {
        ShiftWindow(head, Region(rest, disk), files[i].off - mid, files[i].size);
      }
    }
  }

  // ---- The reader ---------------------------------------------------------------------------

  /** `partition_point(|(off, size)| off + size <= x)` on a partitioned list. */
  function PartitionPoint(files: seq<Extent>, x: nat): (n: nat)
    ensures n <= |files|
    ensures n < |files| ==> files[n].off + files[n].size > x
    ensures n > 0 ==> files[n - 1].off + files[n - 1].size <= x
  {
    if files == [] || files[0].off + files[0].size > x then 0
    else 1 + PartitionPoint(files[1..], x)
  }

  /** The index the search returns is that of the file holding byte `x`. */
  lemma {:induction false} PartitionPointFinds(files: seq<Extent>, end: nat, x: nat)
    requires EndToEnd(files, 0, end) && x < end
    ensures var n := PartitionPoint(files, x);
            n < |files| && files[n].off <= x < files[n].off + files[n].size
  {
    var n := PartitionPoint(files, x);
    if n > 0 {
      ExtentOf(files, map[], 0, end, n - 1);
    } else if files != [] {
      ExtentOf(files, map[], 0, end, 0);
    }
  }

  class PackedTreeReader {
    const disk: Disk
    const prefix: seq<byte>
    const files: seq<Extent>
    const totalLen: u64

    ghost predicate Valid() {
      |prefix| <= totalLen && EndToEnd(files, 0, totalLen - |prefix|)
    }

    /** The whole packed object. */
    ghost function Stream(): seq<byte>
      requires Backed(files, disk)
    {
      prefix + Region(files, disk)
    }

    /** `new`: the extents of an accepted or freshly built manifest are already in offset
        order, so sorting them by offset changes nothing. */
    constructor (disk: Disk, m: Manifest, prefix: seq<byte>)
      requires LaidOut(m.entries, 0, m.totalLen) && |prefix| + m.totalLen < U64_LIMIT
      ensures Valid() && this.disk == disk && this.prefix == prefix
      ensures files == Extents(m.entries) && totalLen == |prefix| + m.totalLen
    {
      this.disk := disk;
      this.prefix := prefix;
      this.files := Extents(m.entries);
      this.totalLen := |prefix| + m.totalLen;
      ExtentsEndToEnd(m.entries, 0, m.totalLen);
    }

    /** The part of `read_block` in the file region: fills `out[at..]` with the bytes of
        the region from `fstart` on. */
    method ReadFiles(fstart: nat, fend: nat, out: array<byte>, at: nat) returns (failed: Option<ReadError>)
      requires Valid() && fstart < fend <= totalLen - |prefix| && out.Length == at + (fend - fstart)
      modifies out
      ensures failed != Some(PastEnd) && failed != Some(OutOfBounds)
      ensures Backed(files, disk) ==>
                && failed.None? && |Region(files, disk)| == totalLen - |prefix|
                && out[..] == old(out[..at]) + Region(files, disk)[fstart..fend]
    {
      hide Region, EndToEnd, Backed, PartitionPoint, Window;
      var flen := totalLen - |prefix|;
      var idx: nat := PartitionPoint(files, fstart);
      PartitionPointFinds(files, flen, fstart);
      var fcur := fstart;
      ExtentOf(files, disk, 0, flen, idx);
      WindowStarts(files, disk, flen, fstart);
      ghost var head, done: seq<byte> := out[..at], [];
      while fcur < fend
        invariant fstart <= fcur <= fend
        invariant fcur < fend ==>
                    idx < |files| && files[idx].off <= fcur < files[idx].off + files[idx].size
        invariant |done| == fcur - fstart && out[..at + fcur - fstart] == head + done
        invariant Window(files, disk, fstart, fcur, done)
        decreases fend - fcur
      {
        if idx >= |files| {
          return Some(PastEnd);
        }
        var f := files[idx];
        ExtentOf(files, disk, 0, flen, idx);
        var within := fcur - f.off;
        var avail := f.size - within;
        var want := Min(fend - fcur, avail);
        if f.path !in disk {
          return Some(NotFound);
        }
        if within + want > |disk[f.path]| {
          return Some(ShortFile);
        }
        var chunk := disk[f.path][within..within + want];
        CopyInto(out, at + fcur - fstart, chunk);
        JoinLeft(head, done, chunk);
        NextWindow(files, disk, flen, idx, fstart, fcur, want, done);
        done := done + chunk;
        fcur := fcur + want;
        idx := idx + 1;
        if idx < |files| {
          ExtentOf(files, disk, 0, flen, idx);
        }
      }
      assert out[..at + fcur - fstart] == out[..];
      if Backed(files, disk) {
        WindowIs(files, disk, fstart, fend, done);
      }
      failed := None;
    }

    /** The part of a window that lies in the prefix. */
    ghost function Front(start: nat, cursor: nat): seq<byte>
      requires start <= cursor && (start < |prefix| ==> cursor <= |prefix|)
    {
      if start < |prefix| then prefix[start..cursor] else []
    }

    /** A window of the stream, from the prefix and from the region. */
    lemma StreamSplits(start: nat, cursor: nat, end: nat)
      requires Valid() && Backed(files, disk) && start <= cursor <= end <= totalLen
      requires cursor == if start < |prefix| then Min(end, |prefix|) else start
      ensures |Stream()| == totalLen && |Region(files, disk)| == totalLen - |prefix|
      ensures cursor == end ==> Stream()[start..end] == Front(start, cursor)
      ensures cursor < end ==>
                Stream()[start..end]
                == Front(start, cursor) + Region(files, disk)[cursor - |prefix|..end - |prefix|]
    {
      hide Region, EndToEnd, Backed;
      RegionLength(files, disk, 0, totalLen - |prefix|);
      WindowSplits(prefix, Region(files, disk), start, cursor, end);
    }

    /** The part of `read_block` in the prefix; `cursor` is where the region's begins. */
    method ReadPrefix(start: nat, end: nat, out: array<byte>) returns (cursor: nat)
      requires start <= end && out.Length == end - start
      modifies out
      ensures start <= cursor <= end && cursor == if start < |prefix| then Min(end, |prefix|) else start
      ensures out[..cursor - start] == Front(start, cursor)
    {
      cursor := start;
      if cursor < |prefix| {
        var take := Min(end, |prefix|) - cursor;
        CopyInto(out, 0, prefix[cursor..cursor + take]);
        cursor := cursor + take;
      }
    }

    /** `read_block`: in bounds and with the files still there, exactly the window of the
        stream; and it never runs past the last file. */
    method ReadBlock(start: u64, len: nat) returns (r: Result<seq<byte>, ReadError>)
      requires Valid()
      ensures r == Err(OutOfBounds) <==> start + len > totalLen
      ensures r != Err(PastEnd)
      ensures start + len <= totalLen && Backed(files, disk) ==>
                |Stream()| == totalLen && r == Ok(Stream()[start..start + len])
    {
      hide Region, EndToEnd, Backed, Stream, Front;
      var end := start + len;
      if end >= U64_LIMIT || end > totalLen {
        return Err(OutOfBounds);
      }
      var out := new byte[len](_ => 0);
      var plen := |prefix|;
      var cursor := ReadPrefix(start, end, out);
      if Backed(files, disk) {
        StreamSplits(start, cursor, end);
      }
      if cursor >= end {
        assert out[..] == out[..cursor - start];
        return Ok(out[..]);
      }

      var failed := ReadFiles(cursor - plen, end - plen, out, cursor - start);
      if failed.Some? {
        return Err(failed.value);
      }
      r := Ok(out[..]);
    }
  }

  /** A window of the stream is its part of the prefix, then its part of the region;
      `cursor` is where the second begins. */
  lemma WindowSplits(prefix: seq<byte>, region: seq<byte>, start: nat, cursor: nat, end: nat)
    requires start <= cursor <= end <= |prefix| + |region|
    requires cursor == if start < |prefix| then Min(end, |prefix|) else start
    ensures var head := if start < |prefix| then prefix[start..cursor] else [];
            && (cursor == end ==> (prefix + region)[start..end] == head)
            && (cursor < end ==> (prefix + region)[start..end] == head + region[cursor - |prefix|..end - |prefix|])
  {
    if start < |prefix| {
      FrontWindow(prefix, region, start, cursor);
    }
    if cursor < end {
      ShiftWindow(prefix, region, cursor - |prefix|, end - cursor);
      WindowsJoin(prefix + region, start, cursor, end);
      if start == cursor {
        EmptyWindow(prefix + region, start);
      }
    } else if start >= |prefix| {
      EmptyWindow(prefix + region, start);
    }
  }

  lemma EmptyWindow(s: seq<byte>, i: nat)
    requires i <= |s|
    ensures s[i..i] == [] && forall t: seq<byte> :: s[i..i] + t == t
  {
    assert forall t: seq<byte> :: [] + t == t;
  }

  lemma FrontWindow(a: seq<byte>, b: seq<byte>, lo: nat, hi: nat)
    requires lo <= hi <= |a|
    ensures (a + b)[lo..hi] == a[lo..hi]
  {
  }

  lemma {:induction false} RegionLength(files: seq<Extent>, disk: Disk, at: nat, end: nat)
    requires EndToEnd(files, at, end) && Backed(files, disk)
    ensures at <= end && |Region(files, disk)| == end - at
  {
    if files != [] {
      ExtentOf(files, disk, at, end, 0);
    }
  }

  lemma WindowOfFile(region: seq<byte>, off: nat, content: seq<byte>, size: nat, within: nat, want: nat)
    requires size <= |content| && off + size <= |region| && region[off..off + size] == content[..size]
    requires within + want <= size
    ensures region[off + within..off + within + want] == content[within..within + want]
  {
    forall j | off <= j < off + size
      ensures region[j] == content[j - off]
    {
      assert region[off..off + size][j - off] == content[..size][j - off];
    }
  }

  /** `done` is what the region holds from `fstart` up to `fcur`. */
  ghost predicate Window(files: seq<Extent>, disk: Disk, fstart: nat, fcur: nat, done: seq<byte>) {
    Backed(files, disk) ==>
      fstart <= fcur <= |Region(files, disk)| && done == Region(files, disk)[fstart..fcur]
  }

  lemma {:induction false} WindowStarts(files: seq<Extent>, disk: Disk, end: nat, fstart: nat)
    requires EndToEnd(files, 0, end) && fstart <= end
    ensures Window(files, disk, fstart, fstart, [])
    ensures Backed(files, disk) ==> |Region(files, disk)| == end
  {
    if Backed(files, disk) {
      RegionLength(files, disk, 0, end);
    }
  }

  lemma {:induction false} WindowIs(files: seq<Extent>, disk: Disk, fstart: nat, fend: nat, done: seq<byte>)
    requires Window(files, disk, fstart, fend, done) && Backed(files, disk)
    ensures fstart <= fend <= |Region(files, disk)| && done == Region(files, disk)[fstart..fend]
  {
  }

  /** Reading `want` more bytes of file `idx` extends the window. */
  lemma {:induction false} NextWindow(files: seq<Extent>, disk: Disk, end: nat, idx: nat, fstart: nat, fcur: nat,
                                      want: nat, done: seq<byte>)
    requires EndToEnd(files, 0, end) && idx < |files| && Window(files, disk, fstart, fcur, done)
    requires files[idx].off <= fcur && fcur + want <= files[idx].off + files[idx].size
    requires files[idx].path in disk && fcur - files[idx].off + want <= |disk[files[idx].path]|
    ensures var within, content := fcur - files[idx].off, disk[files[idx].path];
            Window(files, disk, fstart, fcur + want, done + content[within..within + want])
  {
    ExtentOf(files, disk, 0, end, idx);
    hide Region, EndToEnd, Backed;
    if Backed(files, disk) {
      var f := files[idx];
      WindowGrows(Region(files, disk), f.off, disk[f.path], f.size, fstart, fcur, want);
    }
  }

  lemma WindowGrows(region: seq<byte>, off: nat, content: seq<byte>, size: nat, fstart: nat, fcur: nat, want: nat)
    requires size <= |content| && off + size <= |region| && region[off..off + size] == content[..size]
    requires fstart <= fcur && off <= fcur && fcur + want <= off + size
    ensures region[fstart..fcur] + content[fcur - off..fcur - off + want] == region[fstart..fcur + want]
  {
    WindowOfFile(region, off, content, size, fcur - off, want);
    WindowsJoin(region, fstart, fcur, fcur + want);
  }

  lemma JoinLeft(a: seq<byte>, b: seq<byte>, c: seq<byte>)
    ensures a + (b + c) == (a + b) + c
  {
  }

  lemma WindowsJoin(s: seq<byte>, a: nat, b: nat, c: nat)
    requires a <= b <= c <= |s|
    ensures s[a..b] + s[b..c] == s[a..c]
  {
  }

  /** `copy_from_slice` into part of the output. */
  method CopyInto(out: array<byte>, at: nat, src: seq<byte>)
    requires at + |src| <= out.Length
    modifies out
    ensures out[..at + |src|] == old(out[..at]) + src
    ensures out[at + |src|..] == old(out[at + |src|..])
  {
    forall i | 0 <= i < |src| {
      out[at + i] := src[i];
    }
  }
}
