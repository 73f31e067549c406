/** AFTP frames: the ten-byte header, `write_frame`, the one-shot `read_frame` and
    what reading a whole stream of frames means. */
module Frames {
  import opened Bytes
  import opened Wire

  const MAGIC: seq<byte> := [0xAF, 0x54]
  const VERSION: byte := 1
  const HEADER_SIZE := 10

  datatype Frame = Frame(frameType: byte, flags: byte, payload: seq<byte>)

  datatype FrameHeader = FrameHeader(frameType: byte, flags: byte, payloadLen: u32)

  /** `Closed`: the stream ended inside a header (or between frames).
      `PayloadCut`: it ended inside a payload. */
  datatype ReadError = Closed | BadMagic | BadVersion | TooLarge | PayloadCut

  // ---- Writing -------------------------------------------------------------------

  /** The length field holds the low 32 bits of the payload length. */
  function HeaderBytes(f: Frame): (h: seq<byte>)
    ensures |h| == HEADER_SIZE
  {
    MAGIC + [VERSION, f.frameType, f.flags, 0] + LE(|f.payload|, 4)
  }

  lemma HeaderLayout(f: Frame)
    ensures var h, len := HeaderBytes(f), LE(|f.payload|, 4);
            && h[0] == MAGIC[0] && h[1] == MAGIC[1] && h[2] == VERSION
            && h[3] == f.frameType && h[4] == f.flags && h[5] == 0
            && h[6] == len[0] && h[7] == len[1] && h[8] == len[2] && h[9] == len[3]
  {
    hide LE;
  }

  function FrameBytes(f: Frame): seq<byte> {
    HeaderBytes(f) + f.payload
  }

  method FillHeader(f: Frame) returns (hdr: array<byte>)
    ensures fresh(hdr) && hdr[..] == HeaderBytes(f)
  {
    hide HeaderBytes, LE;
    hdr := new byte[HEADER_SIZE](_ => 0);
    hdr[0], hdr[1], hdr[2] := MAGIC[0], MAGIC[1], VERSION;
    hdr[3], hdr[4] := f.frameType, f.flags;
    var len := LE(|f.payload|, 4);
    hdr[6], hdr[7], hdr[8], hdr[9] := len[0], len[1], len[2], len[3];
    HeaderLayout(f);
  }

  method WriteFrame(w: Buffer, f: Frame)
    modifies w
    ensures w.bytes == old(w.bytes) + FrameBytes(f)
  {
    hide HeaderBytes;
    var hdr := FillHeader(f);
    w.bytes := w.bytes + hdr[..];
    if f.payload != [] {
      w.bytes := w.bytes + f.payload;
    }
  }

  function StreamBytes(frames: seq<Frame>): seq<byte> {
    if frames == [] then [] else FrameBytes(frames[0]) + StreamBytes(frames[1..])
  }

  // ---- Reading one frame -----------------------------------------------------------

  /** The checks `read_frame_header` and `read_frame` make on ten header bytes. */
  function ParseHeader(h: seq<byte>, maxPayload: u32): Result<FrameHeader, ReadError>
    requires |h| == HEADER_SIZE
  {
    Pow256Values();
    if h[0] != MAGIC[0] || h[1] != MAGIC[1] then Err(BadMagic)
    else if h[2] != VERSION then Err(BadVersion)
    else
      var len := FromLE(h[6..10]);
      if len > maxPayload then Err(TooLarge) else Ok(FrameHeader(h[3], h[4], len))
  }

  /** `read_frame` on the front of a byte stream: the frame and the bytes it took. */
  function ReadFrame(s: seq<byte>, maxPayload: u32): (r: Result<At<Frame>, ReadError>)
    ensures r.Ok? ==> HEADER_SIZE <= r.value.off <= |s|
  {
    if |s| < HEADER_SIZE then Err(Closed)
    else
      var hdr :- ParseHeader(s[..HEADER_SIZE], maxPayload);
      var end := HEADER_SIZE + hdr.payloadLen;
      if |s| < end then Err(PayloadCut)
      else Ok(At(Frame(hdr.frameType, hdr.flags, s[HEADER_SIZE..end]), end))
  }

  lemma ReadOfWritten(f: Frame, rest: seq<byte>, maxPayload: u32)
    requires |f.payload| <= maxPayload
    ensures ReadFrame(FrameBytes(f) + rest, maxPayload) == Ok(At(f, |FrameBytes(f)|))
  {
    Pow256Values();
    var s := FrameBytes(f) + rest;
    assert s[..HEADER_SIZE] == HeaderBytes(f);
    assert s[..HEADER_SIZE][6..10] == LE(|f.payload|, 4);
    FromLEofLE(|f.payload|, 4);
    assert s[HEADER_SIZE..HEADER_SIZE + |f.payload|] == f.payload;
  }

  /** Only the reserved header byte is ignored: with it zero, the bytes read are the
      bytes `write_frame` would have produced. */
  lemma WrittenOfRead(s: seq<byte>, maxPayload: u32)
    requires ReadFrame(s, maxPayload).Ok?
    ensures var a := ReadFrame(s, maxPayload).value;
            |a.value.payload| <= maxPayload && s[..a.off][5 := 0] == FrameBytes(a.value)
  {
    var a := ReadFrame(s, maxPayload).value;
    var h := s[..HEADER_SIZE];
    LEofFromLE(h[6..10]);
    assert h[5 := 0] == HeaderBytes(a.value);
    assert s[..a.off][5 := 0] == h[5 := 0] + s[HEADER_SIZE..a.off];
  }

  /** Why a frame is refused, first reason first: the stream ends in the header; another
      magic; another version; a length over the cap; the stream ends in the payload. */
  lemma RefusedBecause(s: seq<byte>, maxPayload: u32)
    ensures var r := ReadFrame(s, maxPayload);
            if |s| < 10 then r == Err(Closed)
            else if s[0] != 0xAF || s[1] != 0x54 then r == Err(BadMagic)
            else if s[2] != 1 then r == Err(BadVersion)
            else if FromLE(s[6..10]) > maxPayload then r == Err(TooLarge)
            else if |s| < 10 + FromLE(s[6..10]) then r == Err(PayloadCut)
            else r.Ok?
  {
    hide FromLE;
    if |s| >= 10 {
      assert s[..10][6..10] == s[6..10];
    }
  }

  // ---- Reading a stream ---------------------------------------------------------------

  /** The frames repeated `read_frame` yields before its first error. */
  function AllFrames(s: seq<byte>, maxPayload: u32): seq<Frame>
    decreases |s|
  {
    var r := ReadFrame(s, maxPayload);
    if r.Err? then [] else [r.value.value] + AllFrames(s[r.value.off..], maxPayload)
  }

  /** The error that ends it: a finite stream always ends in one. */
  function FinalError(s: seq<byte>, maxPayload: u32): ReadError
    decreases |s|
  {
    var r := ReadFrame(s, maxPayload);
    if r.Err? then r.error else FinalError(s[r.value.off..], maxPayload)
  }

  /** Every sequence of frames within the cap survives the wire, and the stream then
      ends cleanly between frames. */
  lemma {:induction false} StreamRoundTrip(frames: seq<Frame>, maxPayload: u32)
    requires forall f :: f in frames ==> |f.payload| <= maxPayload
    ensures AllFrames(StreamBytes(frames), maxPayload) == frames
    ensures FinalError(StreamBytes(frames), maxPayload) == Closed
  {
    if frames != [] {
      var s := StreamBytes(frames);
      ReadOfWritten(frames[0], StreamBytes(frames[1..]), maxPayload);
      assert s[|FrameBytes(frames[0])|..] == StreamBytes(frames[1..]);
      StreamRoundTrip(frames[1..], maxPayload);
    }
  }

  /** A frame byte by byte: magic, version, type, flags, the reserved byte, the length low
      byte first, the payload. */
  lemma KnownFrame(p: byte)
    ensures FrameBytes(Frame(0x0A, 0x02, [p, 9])) == [0xAF, 0x54, 1, 0x0A, 0x02, 0, 2, 0, 0, 0, p, 9]
  {
    assert LE(2, 4) == [2, 0, 0, 0];
  }

  /** The length field of a long payload, low byte first. */
  lemma KnownLength(f: Frame)
    requires |f.payload| == 0x0102_0304
    ensures HeaderBytes(f)[6..10] == [4, 3, 2, 1]
  {
    assert LE(0x0102_0304, 4) == [4, 3, 2, 1];
  }
}
