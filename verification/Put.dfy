/** Uploading a file over the reliable path: the client's chunked, optionally compressed
    and checksummed frames, and the server that stages, verifies and renames. */
module Put {
  import opened Bytes
  import opened Crc32
  import opened Frames
  import opened Merkle
  import opened Wire

  const FRAME_DATA: byte := 0x0A
  const FRAME_DATA_END: byte := 0x0B
  const FLAG_COMPRESSED: byte := 0x01
  const FLAG_CRC32: byte := 0x02
  const CHECKSUM_SHA256: byte := 1

  /** What a session agreed on, and the library code both ends call. */
  datatype Session = Session(maxFrame: u32, compression: bool, crc32: bool, hash: seq<byte> -> Digest,
                             compress: seq<byte> -> Option<seq<byte>>, decompress: seq<byte> -> Option<seq<byte>>)
  {
    /** The largest payload the server reads. */
    function Cap(): nat {
      maxFrame + 1024
    }
  }

  /** The server adds its 1024 bytes of slack in 32 bits; decompression undoes compression. */
  ghost predicate Lawful(c: Session) {
    && c.Cap() < U32_LIMIT
    && forall x :: c.compress(x).Some? ==> c.decompress(c.compress(x).value) == Some(x)
  }

  predicate HasFlag(flags: byte, flag: byte)
    requires flag > 0
  {
    flags / flag % 2 == 1
  }

  // ---- Data frames -------------------------------------------------------------------------------

  function WithCrc(data: seq<byte>): seq<byte> {
    data + TagLE(Crc(data))
  }

  /** `verify_frame_crc32`: the data before a matching trailer. */
  function CheckCrc(payload: seq<byte>): Option<seq<byte>> {
    if |payload| < 4 then None
    else
      var n := |payload| - 4;
      if payload[n..] == TagLE(Crc(payload[..n])) then Some(payload[..n]) else None
  }

  /** A payload passes exactly when it is some data with that data's checksum behind it. */
  lemma PassesExactly(payload: seq<byte>, data: seq<byte>)
    ensures CheckCrc(payload) == Some(data) <==> payload == data + TagLE(Crc(data))
  {
    hide Crc, TagLE;
    if payload == data + TagLE(Crc(data)) {
      assert payload[..|payload| - 4] == data;
    }
    if CheckCrc(payload) == Some(data) {
      assert payload == payload[..|payload| - 4] + payload[|payload| - 4..];
    }
  }

  /** One changed byte, in the data or in its checksum, and the payload does not pass. */
  lemma OneByteFails(data: seq<byte>, i: nat, b: byte)
    requires i < |WithCrc(data)| && b != WithCrc(data)[i]
    ensures CheckCrc(WithCrc(data)[i := b]) == None
  {
    hide Crc, TagLE;
    var n, tag := |data|, TagLE(Crc(data));
    var damaged := WithCrc(data)[i := b];
    if i < n {
      assert damaged[..n] == data[i := b] && damaged[n..] == tag;
      OneByteChangesCrc(data, i, b);
      if TagLE(Crc(data[i := b])) == tag {
        SameTagSameCrc(Crc(data), Crc(data[i := b]));
      }
    } else {
      assert damaged[..n] == data && damaged[n..][i - n] != tag[i - n];
    }
  }

  lemma SameTagSameCrc(x: bv32, y: bv32)
    requires TagLE(x) == TagLE(y)
    ensures x == y
  {
    hide TagBE;
    assert Reverse(TagLE(x)) == TagBE(x) && Reverse(TagLE(y)) == TagBE(y);
    TagInjective(x, y);
  }

  /** One file chunk as the client frames it: compressed if that is shorter. */
  function DataFrame(c: Session, chunk: seq<byte>): Frame {
    var z := if c.compression then c.compress(chunk) else None;
    var shorter := z.Some? && |z.value| < |chunk|;
    var body := if shorter then z.value else chunk;
    Frame(FRAME_DATA, (if shorter then FLAG_COMPRESSED else 0) + (if c.crc32 then FLAG_CRC32 else 0),
          if c.crc32 then WithCrc(body) else body)
  }

  /** Which frame a chunk becomes: type 10; flag 1 exactly if a shorter compressed form was
      found, which is then sent instead; flag 2 exactly with checksums, which cost four bytes;
      no other flag. */
  lemma DataFrameIs(c: Session, chunk: seq<byte>)
    ensures var f := DataFrame(c, chunk);
            var body := if f.flags % 2 == 1 then c.compress(chunk).value else chunk;
            && f.frameType == 10 && f.flags < 4
            && (f.flags % 2 == 1 <==>
                  c.compression && c.compress(chunk).Some? && |c.compress(chunk).value| < |chunk|)
            && (f.flags >= 2 <==> c.crc32)
            && f.payload == body + if c.crc32 then TagLE(Crc(body)) else []
  {
    hide Crc, TagLE;
    var body := if DataFrame(c, chunk).flags % 2 == 1 then c.compress(chunk).value else chunk;
    assert body + [] == body;
  }

  /** What the server makes of a data frame. */
  function DecodeData(c: Session, f: Frame): Option<seq<byte>> {
    var raw := if c.crc32 && HasFlag(f.flags, FLAG_CRC32) then CheckCrc(f.payload) else Some(f.payload);
    if raw.None? then None
    else if HasFlag(f.flags, FLAG_COMPRESSED) then c.decompress(raw.value)
    else raw
  }

  /** Whatever was chosen for a chunk, the server recovers it, from a frame within its cap. */
  lemma ChunkSurvives(c: Session, chunk: seq<byte>)
    requires Lawful(c) && |chunk| <= c.maxFrame
    ensures DecodeData(c, DataFrame(c, chunk)) == Some(chunk)
    ensures |DataFrame(c, chunk).payload| <= c.maxFrame + 4 <= c.Cap()
  {
    hide Crc, TagLE;
    var f := DataFrame(c, chunk);
    var z := if c.compression then c.compress(chunk) else None;
    var body := if z.Some? && |z.value| < |chunk| then z.value else chunk;
    if c.crc32 {
      var n := |f.payload| - 4;
      assert f.payload[..n] == body && f.payload[n..] == TagLE(Crc(body));
    }
  }

  // ---- DATA_END -----------------------------------------------------------------------------------

  datatype DataEnd = DataEnd(total: u64, algo: byte, checksum: seq<byte>)

  /** The length byte holds the low eight bits of the length. */
  function EndBytes(e: DataEnd): seq<byte> {
    LE(e.total, 8) + [e.algo, |e.checksum| % 256] + e.checksum
  }

  function ParseEnd(p: seq<byte>): Option<DataEnd> {
    Pow256Values();
    if |p| < 10 then None
    else if 10 + p[9] as int > |p| then None
    else Some(DataEnd(FromLE(p[..8]), p[8], p[10..10 + p[9] as int]))
  }

  lemma EndRoundTrip(e: DataEnd)
    requires |e.checksum| < 256
    ensures ParseEnd(EndBytes(e)) == Some(e)
  {
    hide LE, FromLE;
    Pow256Values();
    var p := EndBytes(e);
    assert p[..8] == LE(e.total, 8);
    FromLEofLE(e.total, 8);
    assert p[10..10 + |e.checksum|] == e.checksum;
  }

  /** The closing payload byte by byte: the length low byte first, algorithm, the checksum with
      its length in front. */
  lemma KnownEnd(a: byte, b: byte)
    ensures EndBytes(DataEnd(0x0102_0304_0506_0708, 1, [a, b])) == [8, 7, 6, 5, 4, 3, 2, 1] + [1, 2] + [a, b]
  {
    hide LE;
    KnownLE();
  }

  // ---- The client --------------------------------------------------------------------------------

  function DataFrames(c: Session, chunks: seq<seq<byte>>): (fs: seq<Frame>)
    ensures |fs| == |chunks| && forall i :: 0 <= i < |chunks| ==> fs[i] == DataFrame(c, chunks[i])
  {
    seq(|chunks|, i requires 0 <= i < |chunks| => DataFrame(c, chunks[i]))
  }

  function EndFrame(c: Session, data: seq<byte>): Frame
    requires |data| < U64_LIMIT
  {
    Frame(FRAME_DATA_END, 0, EndBytes(DataEnd(|data|, CHECKSUM_SHA256, c.hash(data))))
  }

  function Concat(chunks: seq<seq<byte>>): seq<byte> {
    if chunks == [] then [] else Concat(chunks[..|chunks| - 1]) + chunks[|chunks| - 1]
  }

  lemma {:induction false} StreamBytesSnoc(fs: seq<Frame>, f: Frame)
    ensures StreamBytes(fs + [f]) == StreamBytes(fs) + FrameBytes(f)
  {
    hide FrameBytes;
    if fs == [] {
      assert (fs + [f])[1..] == [];
    } else {
      StreamBytesSnoc(fs[1..], f);
      assert (fs + [f])[1..] == fs[1..] + [f];
    }
  }

  /** A file read: up to `want` bytes, at least one while any are left and room for one;
      `k` is the operating system's choice. */
  function ReadLen(k: nat, want: nat, left: nat): (n: nat)
    ensures n <= want && n <= left && (left > 0 && want > 0 ==> n > 0)
  {
    Min(1 + k, Min(want, left))
  }

  /** Sends one chunk; with a CRC the header goes out first and the payload after it. */
  method SendChunk(w: Buffer, c: Session, chunk: seq<byte>)
    requires Lawful(c) && |chunk| <= c.maxFrame
    modifies w
    ensures w.bytes == old(w.bytes) + FrameBytes(DataFrame(c, chunk))
  {
    hide LE, Crc, TagLE;
    if c.compression {
      var z := c.compress(chunk);
      if z.Some? && |z.value| < |chunk| {
        if c.crc32 {
          WriteFrame(w, Frame(FRAME_DATA, FLAG_COMPRESSED + FLAG_CRC32, z.value + TagLE(Crc(z.value))));
        } else {
          WriteFrame(w, Frame(FRAME_DATA, FLAG_COMPRESSED, z.value));
        }
        return;
      }
    }
    if c.crc32 {
      var f := Frame(FRAME_DATA, FLAG_CRC32, chunk + TagLE(Crc(chunk)));
      assert |f.payload| == |chunk| + 4;
      w.bytes := w.bytes + HeaderBytes(f);
      w.bytes := w.bytes + chunk;
      w.bytes := w.bytes + TagLE(Crc(chunk));
    } else {
      var f := Frame(FRAME_DATA, 0, chunk);
      w.bytes := w.bytes + HeaderBytes(f);
      w.bytes := w.bytes + chunk;
    }
  }

  /** One more chunk sent: it joins the others, and its frame theirs. */
  lemma {:induction false} ChunkAdded(c: Session, source: seq<byte>, chunks: seq<seq<byte>>, sent: nat, n: nat)
    requires sent + n <= |source| && Concat(chunks) == source[..sent]
    ensures var chunk := source[sent..sent + n];
            && Concat(chunks + [chunk]) == source[..sent + n]
            && StreamBytes(DataFrames(c, chunks + [chunk]))
               == StreamBytes(DataFrames(c, chunks)) + FrameBytes(DataFrame(c, chunk))
  {
    hide FrameBytes, DataFrame;
    var chunk := source[sent..sent + n];
    assert (chunks + [chunk])[..|chunks|] == chunks;
    assert DataFrames(c, chunks + [chunk]) == DataFrames(c, chunks) + [DataFrame(c, chunk)];
    StreamBytesSnoc(DataFrames(c, chunks), DataFrame(c, chunk));
  }

  /** `upload` on the reliable path, the file read in chunks of the system's choosing:
      data frames of consecutive chunks, then the count and digest of all of them. It
      stops short of the end of the file only if the server allowed no bytes per frame. */
  method Upload(c: Session, source: seq<byte>, serve: nat -> nat)
    returns (wire: seq<byte>, totalSent: nat, ghost chunks: seq<seq<byte>>)
    requires Lawful(c) && |source| < U64_LIMIT
    ensures forall i :: 0 <= i < |chunks| ==> 0 < |chunks[i]| <= c.maxFrame
    ensures totalSent == |Concat(chunks)| <= |source| && Concat(chunks) == source[..totalSent]
    ensures totalSent == |source| <==> c.maxFrame > 0 || source == []
    ensures wire == StreamBytes(DataFrames(c, chunks) + [EndFrame(c, Concat(chunks))])
  {
    hide FrameBytes, DataFrame, LE;
    var w := new Buffer();
    totalSent := 0;
    chunks := [];
    var turn := 0;
    assert DataFrames(c, []) == [];
    var n: nat := ReadLen(serve(turn), c.maxFrame, |source|);
    while n > 0
      invariant totalSent + n <= |source| && n <= c.maxFrame
      invariant n == 0 ==> totalSent == |source| || c.maxFrame == 0
      invariant c.maxFrame == 0 ==> totalSent == 0
      invariant forall i :: 0 <= i < |chunks| ==> 0 < |chunks[i]| <= c.maxFrame
      invariant Concat(chunks) == source[..totalSent]
      invariant w.bytes == StreamBytes(DataFrames(c, chunks))
      decreases |source| - totalSent
    {
      var chunk := source[totalSent..totalSent + n];
      SendChunk(w, c, chunk);
      ChunkAdded(c, source, chunks, totalSent, n);
      chunks := chunks + [chunk];
      totalSent := totalSent + n;
      turn := turn + 1;
      n := ReadLen(serve(turn), c.maxFrame, |source| - totalSent);
    }
    assert Concat(chunks) == source[..totalSent];
    StreamBytesSnoc(DataFrames(c, chunks), EndFrame(c, source[..totalSent]));
    WriteFrame(w, EndFrame(c, source[..totalSent]));
    wire := w.bytes;
  }

  // ---- The server -----------------------------------------------------------------------------------

  /** How a PUT ends: the staged data renamed into place, or given up with the staging
      file left as it was, or removed. */
  datatype Verdict = Publish(data: seq<byte>) | LeaveTemp(staged: seq<byte>) | RemoveTemp

  /** A digest is checked only if one is given under the known algorithm. */
  predicate DigestOk(c: Session, e: DataEnd, data: seq<byte>) {
    e.algo == CHECKSUM_SHA256 && e.checksum != [] ==> c.hash(data) == e.checksum
  }

  /** What the server does with the byte stream `s` after staging `got`. */
  function Receive(c: Session, s: seq<byte>, got: seq<byte>): Verdict
    requires c.Cap() < U32_LIMIT
    decreases |s|
  {
    match ReadFrame(s, c.Cap())
    case Err(_) => LeaveTemp(got)
    case Ok(a) =>
      if a.value.frameType == FRAME_DATA then
        var data := DecodeData(c, a.value);
        if data.None? then LeaveTemp(got) else Receive(c, s[a.off..], got + data.value)
      else if a.value.frameType == FRAME_DATA_END then
        var e := ParseEnd(a.value.payload);
        if e.None? then LeaveTemp(got)
        else if e.value.total != |got| || !DigestOk(c, e.value, got) then RemoveTemp
        else Publish(got)
      else RemoveTemp
  }

  datatype Item = Folder | Content(bytes: seq<byte>)

  /** What one directory holds, by name. */
  type Files = map<string, Item>

  predicate IsFolder(files: Files, name: string) {
    name in files && files[name].Folder?
  }

  const TEMP_EXTENSION := ".aft-tmp"

  /** The name without its extension; a leading dot starts no extension. */
  function Stem(name: string): (stem: string)
    ensures stem <= name
  {
    var d := LastDot(name, |name|);
    if d == 0 || name == ".." then name else name[..d]
  }

  /** The last dot in `name[..n]`, or 0 if there is none after the first character. */
  function LastDot(name: string, n: nat): (d: nat)
    requires n <= |name|
    ensures d <= n && (d > 0 ==> d < n && name[d] == '.')
    ensures forall i :: d < i < n ==> name[i] != '.'
  {
    if n <= 1 then 0 else if name[n - 1] == '.' then n - 1 else LastDot(name, n - 1)
  }

  /** `with_extension("aft-tmp")`. */
  function TempName(name: string): string {
    Stem(name) + TEMP_EXTENSION
  }

  /** The directory afterwards. A folder in the way of the staging file stops the upload
      at once, one in the way of the final path at the rename. */
  function After(files: Files, name: string, v: Verdict): Files {
    var temp := TempName(name);
    if IsFolder(files, temp) then files
    else
      match v
      case Publish(data) =>
        if IsFolder(files, name) then files[temp := Content(data)] else (files - {temp})[name := Content(data)]
      case LeaveTemp(staged) => files[temp := Content(staged)]
      case RemoveTemp => files - {temp}
  }

  predicate Unobstructed(files: Files, name: string) {
    !IsFolder(files, name) && !IsFolder(files, TempName(name))
  }

  class Directory {
    var files: Files

    constructor (files: Files)
      ensures this.files == files
    {
      this.files := files;
    }

    /** `handle_put` without the fountain data plane, with the directory to itself. */
    method HandlePut(c: Session, name: string, stream: seq<byte>) returns (published: bool)
      requires c.Cap() < U32_LIMIT
      modifies this
      ensures files == After(old(files), name, Receive(c, stream, []))
      ensures published <==> Receive(c, stream, []).Publish? && Unobstructed(old(files), name)
      ensures published ==> name in files && files[name].Content?
      ensures published ==> exists n :: Vouched(c, stream, n, [], files[name].bytes)
    {
      hide ReadFrame, DecodeData, ParseEnd, TempName, Stem, Vouched;
      var temp := TempName(name);
      if temp in files && files[temp].Folder? {
        return false;
      }
      files := files[temp := Content([])];
      var staged: seq<byte> := [];
      var pos := 0;
      assert stream[0..] == stream;
      while true
        invariant pos <= |stream|
        invariant files == old(files)[temp := Content(staged)]
        invariant Receive(c, stream[pos..], staged) == Receive(c, stream, [])
        decreases |stream| - pos
      {
        var read := ReadFrame(stream[pos..], c.Cap());
        if read.Err? {
          return false;
        }
        var frame := read.value.value;
        assert stream[pos..][read.value.off..] == stream[pos + read.value.off..];
        pos := pos + read.value.off;
        if frame.frameType == FRAME_DATA {
          var payload := DecodeData(c, frame);
          if payload.None? {
            return false;
          }
          staged := staged + payload.value;
          files := files[temp := Content(staged)];
        } else if frame.frameType == FRAME_DATA_END {
          var end := ParseEnd(frame.payload);
          if end.None? {
            return false;
          }
          if end.value.total != |staged| {
            files := files - {temp};
            return false;
          }
          if end.value.algo == CHECKSUM_SHA256 && end.value.checksum != [] {
            if c.hash(staged) != end.value.checksum {
              files := files - {temp};
              return false;
            }
          }
          break;
        } else {
          files := files - {temp};
          return false;
        }
      }
      if name in files && files[name].Folder? {
        return false;
      }
      files := (files - {temp})[name := Content(staged)];
      ReceiveVouched(c, stream, [], staged);
      published := true;
    }
  }

  // ---- What was published ------------------------------------------------------------------------------

  /** The decoded payloads, joined, if every frame is a data frame that decodes. */
  function Joined(c: Session, fs: seq<Frame>): Option<seq<byte>> {
    if fs == [] then Some([])
    else if fs[0].frameType != FRAME_DATA then None
    else
      match (DecodeData(c, fs[0]), Joined(c, fs[1..]))
      case (Some(a), Some(b)) => Some(a + b)
      case _ => None
  }

  /** `e` is a DATA_END that declares the length of `data`, and its digest if any. */
  predicate Closes(c: Session, e: Frame, data: seq<byte>) {
    && e.frameType == FRAME_DATA_END && ParseEnd(e.payload).Some?
    && var end := ParseEnd(e.payload).value;
    && end.total == |data| && (end.algo == 1 && end.checksum != [] ==> c.hash(data) == end.checksum)
  }

  /** The first `n` frames of the stream carry `data`, and the next one vouches for it. */
  predicate Vouched(c: Session, s: seq<byte>, n: nat, got: seq<byte>, data: seq<byte>)
    requires c.Cap() < U32_LIMIT
  {
    var fs := AllFrames(s, c.Cap());
    n < |fs| && Joined(c, fs[..n]).Some? && data == got + Joined(c, fs[..n]).value && Closes(c, fs[n], data)
  }

  lemma {:induction false} JoinedFirst(c: Session, fs: seq<Frame>, n: nat)
    requires 0 < n <= |fs|
    ensures Joined(c, fs[..n]) ==
      (if fs[0].frameType != FRAME_DATA then None
       else match (DecodeData(c, fs[0]), Joined(c, fs[1..][..n - 1]))
            case (Some(a), Some(b)) => Some(a + b)
            case _ => None)
  {
    assert fs[..n][1..] == fs[1..][..n - 1];
  }

  /** A data frame that decodes, in front. */
  lemma VouchedPastData(c: Session, s: seq<byte>, got: seq<byte>, data: seq<byte>, n: nat)
    requires c.Cap() < U32_LIMIT && ReadFrame(s, c.Cap()).Ok?
    requires var f := ReadFrame(s, c.Cap()).value.value; f.frameType == FRAME_DATA && DecodeData(c, f).Some?
    ensures var a := ReadFrame(s, c.Cap()).value;
            Vouched(c, s, n, got, data) <==>
              n > 0 && Vouched(c, s[a.off..], n - 1, got + DecodeData(c, a.value).value, data)
  {
    hide ReadFrame, DecodeData, Closes;
    var a := ReadFrame(s, c.Cap()).value;
    var fs := AllFrames(s, c.Cap());
    var part := DecodeData(c, a.value).value;
    assert fs[0] == a.value && fs[1..] == AllFrames(s[a.off..], c.Cap());
    if 0 < n <= |fs| {
      JoinedFirst(c, fs, n);
      if Joined(c, fs[1..][..n - 1]).Some? {
        assert got + (part + Joined(c, fs[1..][..n - 1]).value) == (got + part) + Joined(c, fs[1..][..n - 1]).value;
      }
    }
    if n == 0 {
      NotClosing(c, a.value, data);
    }
  }

  lemma NotClosing(c: Session, f: Frame, data: seq<byte>)
    requires f.frameType == FRAME_DATA
    ensures !Closes(c, f, data)
  {
  }

  /** Anything else in front: only a closing frame vouches, and for what was staged. */
  lemma VouchedElsewise(c: Session, s: seq<byte>, got: seq<byte>, data: seq<byte>, n: nat)
    requires c.Cap() < U32_LIMIT
    requires var r := ReadFrame(s, c.Cap());
             r.Ok? ==> r.value.value.frameType != FRAME_DATA || DecodeData(c, r.value.value).None?
    ensures Vouched(c, s, n, got, data) <==>
              n == 0 && data == got && ReadFrame(s, c.Cap()).Ok?
              && Closes(c, ReadFrame(s, c.Cap()).value.value, got)
  {
    hide ReadFrame, DecodeData, Closes;
    var fs := AllFrames(s, c.Cap());
    if fs != [] {
      assert fs[0] == ReadFrame(s, c.Cap()).value.value;
      assert fs[..0] == [] && got + [] == got;
      if 0 < n <= |fs| {
        JoinedFirst(c, fs, n);
      }
    }
  }

  lemma {:induction false} ReceiveVouched(c: Session, s: seq<byte>, got: seq<byte>, data: seq<byte>)
    requires c.Cap() < U32_LIMIT
    ensures Receive(c, s, got) == Publish(data) <==> exists n :: Vouched(c, s, n, got, data)
    decreases |s|
  {
    hide ReadFrame, DecodeData, ParseEnd, Vouched;
    var r := ReadFrame(s, c.Cap());
    if r.Ok? && r.value.value.frameType == FRAME_DATA && DecodeData(c, r.value.value).Some? {
      var got' := got + DecodeData(c, r.value.value).value;
      ReceiveVouched(c, s[r.value.off..], got', data);
      forall n: nat
        ensures Vouched(c, s, n + 1, got, data) <==> Vouched(c, s[r.value.off..], n, got', data)
        ensures !Vouched(c, s, 0, got, data)
      {
        VouchedPastData(c, s, got, data, n + 1);
        VouchedPastData(c, s, got, data, 0);
      }
      if n: nat :| Vouched(c, s[r.value.off..], n, got', data) {
        assert Vouched(c, s, n + 1, got, data);
      }
      if n: nat :| Vouched(c, s, n, got, data) {
        VouchedPastData(c, s, got, data, n);
      }
    } else {
      forall n: nat
        ensures Vouched(c, s, n, got, data) <==>
                  n == 0 && data == got && r.Ok? && Closes(c, r.value.value, got)
      {
        VouchedElsewise(c, s, got, data, n);
      }
      if Receive(c, s, got) == Publish(data) {
        assert Vouched(c, s, 0, got, data);
      }
    }
  }

  // ---- End to end ---------------------------------------------------------------------------------------

  lemma {:induction false} JoinedChunks(c: Session, chunks: seq<seq<byte>>)
    requires Lawful(c) && forall i :: 0 <= i < |chunks| ==> |chunks[i]| <= c.maxFrame
    ensures Joined(c, DataFrames(c, chunks)) == Some(Concat(chunks))
  {
    hide DecodeData, DataFrame;
    if chunks != [] {
      ChunkSurvives(c, chunks[0]);
      JoinedChunks(c, chunks[1..]);
      assert DataFrames(c, chunks)[1..] == DataFrames(c, chunks[1..]);
      ConcatFront(chunks);
      DataFrameIsData(c, chunks[0]);
    } else {
      assert DataFrames(c, chunks) == [];
    }
  }

  lemma DataFrameIsData(c: Session, chunk: seq<byte>)
    ensures DataFrame(c, chunk).frameType == FRAME_DATA
  {
  }

  lemma {:induction false} ConcatFront(chunks: seq<seq<byte>>)
    requires chunks != []
    ensures Concat(chunks) == chunks[0] + Concat(chunks[1..])
  {
    var n := |chunks| - 1;
    if n > 0 {
      ConcatFront(chunks[..n]);
      assert chunks[..n][1..] == chunks[1..][..n - 1];
    } else {
      assert chunks[..0] == [] && chunks[1..] == [];
    }
  }

  /** The frames a client emits for a file make the server publish the concatenation of
      its chunks. */
  lemma {:induction false} UploadIsPublished(c: Session, chunks: seq<seq<byte>>)
    requires Lawful(c) && |Concat(chunks)| < U64_LIMIT
    requires forall i :: 0 <= i < |chunks| ==> |chunks[i]| <= c.maxFrame
    ensures Receive(c, StreamBytes(DataFrames(c, chunks) + [EndFrame(c, Concat(chunks))]), [])
         == Publish(Concat(chunks))
  {
    hide DecodeData, DataFrame, LE, Receive, DigestOk, FrameBytes;
    var data := Concat(chunks);
    var end := EndFrame(c, data);
    var e := DataEnd(|data|, CHECKSUM_SHA256, c.hash(data));
    EndRoundTrip(e);
    assert |end.payload| == 42;
    var fs := DataFrames(c, chunks) + [end];
    forall f | f in fs
      ensures |f.payload| <= c.Cap()
    {
      if f != end {
        var i :| 0 <= i < |chunks| && f == DataFrame(c, chunks[i]);
        ChunkSurvives(c, chunks[i]);
      }
    }
    StreamRoundTrip(fs, c.Cap());
    JoinedChunks(c, chunks);
    var n := |chunks|;
    assert fs[..n] == DataFrames(c, chunks) && fs[n] == end;
    assert DigestOk(c, e, data) by {
      DigestOfData(c, data);
    }
    assert [] + data == data;
    assert Vouched(c, StreamBytes(fs), n, [], data);
    ReceiveVouched(c, StreamBytes(fs), [], data);
  }

  lemma DigestOfData(c: Session, data: seq<byte>)
    requires |data| < U64_LIMIT
    ensures DigestOk(c, DataEnd(|data|, CHECKSUM_SHA256, c.hash(data)), data)
  {
  }

  /** Client to server, for every file, every way its reads are cut, and every choice of
      compression and checksums: the server publishes exactly when no folder has the final
      name or the staging name, and then exactly the file, unless it allowed no bytes per
      frame. */
  method PutFile(dir: Directory, name: string, c: Session, source: seq<byte>, serve: nat -> nat)
    returns (published: bool)
    requires Lawful(c) && |source| < U64_LIMIT
    modifies dir
    ensures published <==> Unobstructed(old(dir.files), name)
    ensures published ==> name in dir.files && dir.files[name].Content?
    ensures published ==> (dir.files[name].bytes == source <==> c.maxFrame > 0 || source == [])
    ensures forall other :: other != TempName(name) && (published ==> other != name) ==>
              (other in dir.files <==> other in old(dir.files))
              && (other in dir.files ==> dir.files[other] == old(dir.files)[other])
  {
    hide Receive, TempName;
    var wire, totalSent, chunks := Upload(c, source, serve);
    UploadIsPublished(c, chunks);
    published := dir.HandlePut(c, name, wire);
    assert source[..|source|] == source;
  }

  // ---- What is refused -----------------------------------------------------------------------------------

  /** Data frames in front of any stream: the server stages their chunks and goes on. */
  lemma {:induction false} ChunksAreStaged(c: Session, chunks: seq<seq<byte>>, rest: seq<byte>, got: seq<byte>)
    requires Lawful(c) && forall i :: 0 <= i < |chunks| ==> |chunks[i]| <= c.maxFrame
    ensures Receive(c, StreamBytes(DataFrames(c, chunks)) + rest, got) == Receive(c, rest, got + Concat(chunks))
    decreases |chunks|
  {
    hide DecodeData, DataFrame, FrameBytes, ReadFrame;
    if chunks == [] {
      assert DataFrames(c, chunks) == [] && [] + rest == rest && got + [] == got;
    } else {
      var f, others := DataFrame(c, chunks[0]), DataFrames(c, chunks[1..]);
      assert DataFrames(c, chunks)[1..] == others;
      var s := StreamBytes(DataFrames(c, chunks)) + rest;
      var after := StreamBytes(others) + rest;
      assert s == FrameBytes(f) + after;
      ChunkSurvives(c, chunks[0]);
      DataFrameIsData(c, chunks[0]);
      ReadOfWritten(f, after, c.Cap());
      assert s[|FrameBytes(f)|..] == after;
      ChunksAreStaged(c, chunks[1..], rest, got + chunks[0]);
      ConcatFront(chunks);
      assert got + chunks[0] + Concat(chunks[1..]) == got + Concat(chunks);
    }
  }

  /** Whatever chunks come and whatever the closing frame says of them: the upload is
      published exactly when the length is theirs and, if a SHA-256 is given, it is theirs
      too. Otherwise the staging file is removed. */
  lemma {:induction false} DigestDecides(c: Session, chunks: seq<seq<byte>>, e: DataEnd, more: seq<byte>)
    requires Lawful(c) && forall i :: 0 <= i < |chunks| ==> |chunks[i]| <= c.maxFrame
    requires |e.checksum| < 256
    ensures var data := Concat(chunks);
            Receive(c, StreamBytes(DataFrames(c, chunks) + [Frame(11, 0, EndBytes(e))]) + more, [])
            == if e.total == |data| && (e.algo == 1 && e.checksum != [] ==> c.hash(data) == e.checksum)
               then Publish(data) else RemoveTemp
  {
    hide DecodeData, DataFrame, FrameBytes, ReadFrame, ParseEnd, LE;
    var end := Frame(11, 0, EndBytes(e));
    var last := FrameBytes(end) + more;
    StreamBytesSnoc(DataFrames(c, chunks), end);
    assert StreamBytes(DataFrames(c, chunks) + [end]) + more == StreamBytes(DataFrames(c, chunks)) + last;
    ChunksAreStaged(c, chunks, last, []);
    assert [] + Concat(chunks) == Concat(chunks);
    EndRoundTrip(e);
    ReadOfWritten(end, more, c.Cap());
  }

  /** A SHA-256 of other data: the staging file is gone and everything else in the directory,
      the final path included, is as it was. */
  lemma {:induction false} WrongDigestChangesNothing(c: Session, chunks: seq<seq<byte>>, e: DataEnd, files: Files,
                                                     name: string)
    requires Lawful(c) && forall i :: 0 <= i < |chunks| ==> |chunks[i]| <= c.maxFrame
    requires e.algo == 1 && 0 < |e.checksum| < 256 && c.hash(Concat(chunks)) != e.checksum
    ensures var s := StreamBytes(DataFrames(c, chunks) + [Frame(11, 0, EndBytes(e))]);
            After(files, name, Receive(c, s, []))
            == if IsFolder(files, TempName(name)) then files else files - {TempName(name)}
  {
    hide Receive, TempName;
    var s := StreamBytes(DataFrames(c, chunks) + [Frame(11, 0, EndBytes(e))]);
    DigestDecides(c, chunks, e, []);
    assert s + [] == s;
  }

  /** A frame of more than 1024 bytes over the agreed size ends the upload there. */
  lemma {:induction false} OversizedStops(c: Session, f: Frame, rest: seq<byte>, got: seq<byte>)
    requires Lawful(c) && c.maxFrame + 1024 < |f.payload| < U32_LIMIT
    ensures Receive(c, FrameBytes(f) + rest, got) == LeaveTemp(got)
  {
    hide LE, FromLE;
    Pow256Values();
    var s := FrameBytes(f) + rest;
    assert s[6..10] == LE(|f.payload|, 4);
    FromLEofLE(|f.payload|, 4);
    RefusedBecause(s, c.Cap());
    hide ReadFrame;
  }

  /** One changed byte in a checksummed data frame ends the upload there: nothing more is
      staged and nothing is published. */
  lemma {:induction false} DamagedFrameStops(c: Session, f: Frame, data: seq<byte>, i: nat, b: byte, rest: seq<byte>,
                                             got: seq<byte>)
    requires Lawful(c) && c.crc32 && f.frameType == 10 && f.flags % 4 >= 2 && |f.payload| <= c.Cap()
    requires i < |WithCrc(data)| && b != WithCrc(data)[i] && f.payload == WithCrc(data)[i := b]
    ensures DecodeData(c, f) == None
    ensures Receive(c, FrameBytes(f) + rest, got) == LeaveTemp(got)
  {
    hide FrameBytes, ReadFrame, CheckCrc, WithCrc;
    OneByteFails(data, i, b);
    assert HasFlag(f.flags, FLAG_CRC32);
    ReadOfWritten(f, rest, c.Cap());
  }

  // ---- Whatever arrives ------------------------------------------------------------------------------------

  /** The named file is as it was, or holds data the stream vouched for. */
  ghost predicate FinalOk(c: Session, files: Files, name: string, s: seq<byte>)
    requires c.Cap() < U32_LIMIT
  {
    var files' := After(files, name, Receive(c, s, []));
    || (name in files' && files'[name].Content? && exists n :: Vouched(c, s, n, [], files'[name].bytes))
    || ((name in files' <==> name in files) && (name in files ==> files'[name] == files[name]))
  }

  /** A name with a stem whose extension is the staging extension already. */
  predicate EndsInTemp(name: string) {
    |name| > |TEMP_EXTENSION| && name[|name| - |TEMP_EXTENSION|..] == TEMP_EXTENSION
  }

  /** The last extension is replaced. */
  lemma TempReplaces(stem: string, ext: string)
    requires stem != "" && '.' !in ext && (stem != "." || ext != "")
    ensures TempName(stem + "." + ext) == stem + ".aft-tmp"
  {
    var name := stem + "." + ext;
    assert name[|stem|] == '.' && forall i :: |stem| < i < |name| ==> name[i] == ext[i - |stem| - 1];
    assert LastDot(name, |name|) == |stem|;
    assert name[..|stem|] == stem;
  }

  /** A name without a dot, but for a first character, keeps all of it. */
  lemma TempAdds(name: string)
    requires forall i :: 0 < i < |name| ==> name[i] != '.'
    ensures TempName(name) == name + ".aft-tmp"
  {
  }

  lemma TempIsSelf(name: string)
    ensures TempName(name) == name <==> EndsInTemp(name)
  {
    var k := |name| - |TEMP_EXTENSION|;
    if EndsInTemp(name) {
      assert forall i :: k <= i < |name| ==> name[i] == TEMP_EXTENSION[i - k];
      assert name[k] == '.';
      assert forall i :: k < i < |name| ==> name[i] != '.';
      assert LastDot(name, |name|) == k;
      assert name == name[..k] + name[k..];
    }
    if TempName(name) == name {
      assert |Stem(name)| == k;
      assert name[k..] == TEMP_EXTENSION;
    }
  }

  /** For arbitrary incoming frames of an upload that has the directory to itself, the
      final path is untouched or holds vouched data, exactly when its extension is not the
      staging extension: then the code stages the upload in the file it is to replace. */
  lemma PutIsSafe(c: Session, name: string)
    requires c.Cap() < U32_LIMIT
    ensures (forall files, s :: FinalOk(c, files, name, s)) <==> !EndsInTemp(name)
  {
    hide ReadFrame, DecodeData, ParseEnd, LastDot;
    TempIsSelf(name);
    if EndsInTemp(name) {
      var files: Files := map[name := Content([1])];
      var s: seq<byte> := [];
      assert Receive(c, s, []) == LeaveTemp([]) by {
        NothingToRead(c);
      }
      assert After(files, name, LeaveTemp([]))[name] == Content([]);
      assert AllFrames(s, c.Cap()) == [] by {
        NothingToRead(c);
      }
      assert !FinalOk(c, files, name, s);
    } else {
      forall files, s
        ensures FinalOk(c, files, name, s)
      {
        var v := Receive(c, s, []);
        if v.Publish? {
          ReceiveVouched(c, s, [], v.data);
        }
      }
    }
  }

  lemma NothingToRead(c: Session)
    requires c.Cap() < U32_LIMIT
    ensures ReadFrame([], c.Cap()).Err?
  {
  }
}
