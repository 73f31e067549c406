/** `FrameAssembler`: the incremental, cancellation-safe frame reader.

    A run of it is a schedule: at each `read` the transport delivers any positive
    number of the bytes asked for, and between reads the pending future may be
    dropped. Whatever the schedule, the assembler yields the frames `read_frame`
    would yield on the whole stream. */
module Assembler {
  import opened Bytes
  import opened Frames

  // ---- Partly received frames ------------------------------------------------------
  /** `p`: the bytes taken since the last frame boundary are a proper beginning of an
      acceptable frame. */
  predicate Partial(p: seq<byte>, maxPayload: u32) {
    |p| < HEADER_SIZE ||
    (ParseHeader(p[..HEADER_SIZE], maxPayload).Ok?
     && |p| < HEADER_SIZE + ParseHeader(p[..HEADER_SIZE], maxPayload).value.payloadLen)
  }

  /** The assembler reports every end of stream as a closed connection; `read_frame`
      reports one inside a payload as an I/O error. */
  function Reported(e: ReadError): ReadError {
    if e == PayloadCut then Closed else e
  }

  /** A `read` of up to `want` bytes: at least one while any are left, none at the end;
      `k` is the transport's choice. */
  function Delivered(k: nat, want: nat, left: nat): (n: nat)
    requires want > 0
    ensures n <= want && n <= left && (left > 0 ==> n > 0)
  {
    if left == 0 then 0 else Min(1 + k, Min(want, left))
  }

  /** `out` is what `read_frame` yields on `data[..base]`, a frame boundary. */
  ghost predicate Yielded(data: seq<byte>, maxPayload: u32, base: nat, out: seq<Frame>)
    requires base <= |data|
  {
    && AllFrames(data, maxPayload) == out + AllFrames(data[base..], maxPayload)
    && FinalError(data, maxPayload) == FinalError(data[base..], maxPayload)
  }

  lemma YieldedNext(data: seq<byte>, maxPayload: u32, base: nat, out: seq<Frame>, f: Frame, next: nat)
    requires base <= next <= |data| && Yielded(data, maxPayload, base, out)
    requires ReadFrame(data[base..], maxPayload) == Ok(Wire.At(f, next - base))
    ensures Yielded(data, maxPayload, next, out + [f])
  {
    hide ReadFrame;
    assert data[base..][next - base..] == data[next..];
    assert out + ([f] + AllFrames(data[next..], maxPayload))
        == (out + [f]) + AllFrames(data[next..], maxPayload);
  }

  lemma {:induction false} YieldedEnd(data: seq<byte>, maxPayload: u32, base: nat, out: seq<Frame>)
    requires base <= |data| && Yielded(data, maxPayload, base, out)
    requires ReadFrame(data[base..], maxPayload).Err?
    ensures out == AllFrames(data, maxPayload)
    ensures FinalError(data, maxPayload) == ReadFrame(data[base..], maxPayload).error
  {
  }

  lemma YieldedNothing(data: seq<byte>, maxPayload: u32)
    ensures Yielded(data, maxPayload, 0, [])
  {
    assert data[0..] == data;
  }

  lemma {:induction false} YieldedIsPrefix(data: seq<byte>, maxPayload: u32, base: nat, out: seq<Frame>)
    requires base <= |data| && Yielded(data, maxPayload, base, out)
    ensures out <= AllFrames(data, maxPayload)
  {
  }

  /** A frame read from a window is the next one of the stream. */
  lemma YieldedFrom(data: seq<byte>, maxPayload: u32, base: nat, out: seq<Frame>, f: Frame, next: nat)
    requires base <= next <= |data| && Yielded(data, maxPayload, base, out)
    requires ReadFrame(data[base..next], maxPayload) == Ok(Wire.At(f, next - base))
    ensures Yielded(data, maxPayload, next, out + [f])
  {
    hide Yielded, ReadFrame;
    assert data[base..next] <= data[base..];
    ReadFromPrefix(data[base..next], data[base..], maxPayload);
    YieldedNext(data, maxPayload, base, out, f, next);
  }

  lemma ReadFromPrefix(p: seq<byte>, s: seq<byte>, maxPayload: u32)
    requires p <= s && ReadFrame(p, maxPayload).Ok?
    ensures ReadFrame(s, maxPayload) == ReadFrame(p, maxPayload)
  {
    var a := ReadFrame(p, maxPayload).value;
    assert p[..HEADER_SIZE] == s[..HEADER_SIZE] && p[HEADER_SIZE..a.off] == s[HEADER_SIZE..a.off];
  }

  /** A header and part of its payload, seen against the stream they begin. */
  lemma HeaderThenBody(h: seq<byte>, body: seq<byte>, s: seq<byte>, maxPayload: u32)
    requires |h| == HEADER_SIZE && h + body <= s && ParseHeader(h, maxPayload).Ok?
    requires |body| <= ParseHeader(h, maxPayload).value.payloadLen
    ensures var hdr := ParseHeader(h, maxPayload).value;
            if |body| == hdr.payloadLen then
              ReadFrame(s, maxPayload)
              == Ok(Wire.At(Frame(hdr.frameType, hdr.flags, body), HEADER_SIZE + |body|))
            else s == h + body ==> ReadFrame(s, maxPayload) == Err(PayloadCut)
  {
    assert s[..HEADER_SIZE] == (h + body)[..HEADER_SIZE] == h;
    assert s[HEADER_SIZE..HEADER_SIZE + |body|] == (h + body)[HEADER_SIZE..] == body;
  }

  lemma HeaderRefused(h: seq<byte>, s: seq<byte>, maxPayload: u32)
    requires |h| == HEADER_SIZE && h <= s && ParseHeader(h, maxPayload).Err?
    ensures ReadFrame(s, maxPayload) == Err(ParseHeader(h, maxPayload).error)
    ensures Reported(ParseHeader(h, maxPayload).error) == ParseHeader(h, maxPayload).error
  {
    assert s[..HEADER_SIZE] == h;
  }

  lemma PartialYieldsNothing(p: seq<byte>, maxPayload: u32)
    requires Partial(p, maxPayload)
    ensures ReadFrame(p, maxPayload).Err? && Reported(ReadFrame(p, maxPayload).error) == Closed
  {
  }

  // ---- The code ------------------------------------------------------------------------

  /** The receiving half of a connection. `Read` may return fewer bytes than asked. */
  class Transport {
    const data: seq<byte>
    var pos: nat

    constructor (data: seq<byte>)
      ensures this.data == data && pos == 0
    {
      this.data := data;
      pos := 0;
    }

    /** Fills `into[from..]` partly; `k` is the transport's choice of how far. */
    method Read(into: array<byte>, from: nat, k: nat) returns (n: nat)
      requires pos <= |data| && from < into.Length
      modifies this, into
      ensures n == Delivered(k, into.Length - from, |data| - old(pos))
      ensures pos == old(pos) + n <= |data|
      ensures into[..] == old(into[..from]) + data[old(pos)..pos] + old(into[from + n..])
    {
      n := Delivered(k, into.Length - from, |data| - pos);
      forall i | from <= i < from + n {
        into[i] := data[pos + i - from];
      }
      pos := pos + n;
    }
  }

  lemma PiecesJoin(before: seq<byte>, data: seq<byte>, a: nat, b: nat, c: nat)
    requires a <= b <= c <= |data|
    ensures (before + data[a..b]) + data[b..c] == before + data[a..c]
  {
    assert data[a..b] + data[b..c] == data[a..c];
  }

  /** How a call to `next_frame` ends: with a frame, with none yet, with an error, or
      dropped by `select!` before its next read completed. */
  datatype Outcome = Got(frame: Frame) | NotYet | Failed(error: ReadError) | Dropped

  class FrameAssembler {
    const header: array<byte>
    var headerFilled: nat
    var parsed: Option<FrameHeader>
    var payload: array<byte>
    var payloadFilled: nat

    ghost predicate Valid(maxPayload: u32)
      reads this, header, payload
    {
      && header != payload && header.Length == HEADER_SIZE
      && match parsed
         case None => headerFilled < HEADER_SIZE
         case Some(hdr) =>
           && headerFilled == HEADER_SIZE
           && ParseHeader(header[..], maxPayload) == Ok(hdr)
           && payload.Length == hdr.payloadLen && payloadFilled < hdr.payloadLen
    }

    /** The bytes taken since the last frame boundary: a dropped call loses none. */
    ghost function Pending(): seq<byte>
      requires header.Length == HEADER_SIZE && headerFilled <= HEADER_SIZE
      requires parsed.Some? ==> payloadFilled <= payload.Length
      reads this, header, payload
    {
      header[..headerFilled] + (if parsed.Some? then payload[..payloadFilled] else [])
    }

    constructor (maxPayload: u32)
      ensures Valid(maxPayload) && Pending() == []
      ensures fresh(header) && fresh(payload)
    {
      header := new byte[HEADER_SIZE](_ => 0);
      headerFilled := 0;
      parsed := None;
      payload := new byte[0](_ => 0);
      payloadFilled := 0;
    }

    /** The verdict `read_frame` gives on everything received so far and still to come. */
    ghost predicate Rejects(e: ReadError, r: Transport, before: seq<byte>, start: nat, maxPayload: u32)
      reads r
      requires start <= |r.data|
    {
      var whole := ReadFrame(before + r.data[start..], maxPayload);
      whole.Err? && e == Reported(whole.error)
    }

    /** Phase 1: one read towards the header. `Ok(true)`: it is complete and accepted. */
    method ReadHeader(r: Transport, maxPayload: u32, k: nat) returns (done: Result<bool, ReadError>)
      requires Valid(maxPayload) && parsed.None? && r.pos <= |r.data|
      modifies this, header, r
      ensures old(r.pos) <= r.pos <= |r.data| && headerFilled <= HEADER_SIZE
      ensures done.Err? ==> Rejects(done.error, r, old(Pending()), old(r.pos), maxPayload)
      ensures done.Ok? ==> old(r.pos) < r.pos
      ensures done.Ok? && !done.value ==> Valid(maxPayload) && parsed.None? && payload == old(payload)
      ensures done.Ok? && done.value ==>
        && parsed.Some? && fresh(payload) && payloadFilled == 0 && headerFilled == HEADER_SIZE
        && ParseHeader(header[..], maxPayload) == Ok(parsed.value)
        && payload.Length == parsed.value.payloadLen
      ensures done.Ok? ==> Pending() == old(Pending()) + r.data[old(r.pos)..r.pos]
    {
      hide ReadFrame, ParseHeader;
      ghost var start, before := r.pos, Pending();
      var n := r.Read(header, headerFilled, k);
      assert before + r.data[start..r.pos] == header[..headerFilled + n];
      if n == 0 {
        assert before + r.data[start..] == before;
        PartialYieldsNothing(before, maxPayload);
        return Err(Closed);
      }
      headerFilled := headerFilled + n;
      if headerFilled < HEADER_SIZE {
        return Ok(false);
      }
      match ParseHeader(header[..], maxPayload) {
        case Err(e) =>
          assert header[..] == before + r.data[start..r.pos] <= before + r.data[start..];
          HeaderRefused(header[..], before + r.data[start..], maxPayload);
          return Err(e);
        case Ok(hdr) =>
          parsed := Some(hdr);
          payload := new byte[hdr.payloadLen](_ => 0);
          payloadFilled := 0;
          return Ok(true);
      }
    }

    /** Phase 2: one read towards the payload. `Ok(true)`: the frame is complete. */
    method ReadPayload(r: Transport, maxPayload: u32, k: nat) returns (done: Result<bool, ReadError>)
      requires Valid(maxPayload) && parsed.Some? && r.pos <= |r.data|
      modifies this`payloadFilled, payload, r
      ensures old(r.pos) <= r.pos <= |r.data| && payloadFilled <= payload.Length
      ensures done.Err? ==> Rejects(done.error, r, old(Pending()), old(r.pos), maxPayload)
      ensures done.Ok? ==> old(r.pos) < r.pos
      ensures done.Ok? ==> Pending() == old(Pending()) + r.data[old(r.pos)..r.pos]
      ensures done.Ok? && !done.value ==> Valid(maxPayload)
      ensures done.Ok? && done.value ==> payloadFilled == payload.Length
    {
      hide ReadFrame, ParseHeader;
      ghost var start, before, got := r.pos, Pending(), payload[..payloadFilled];
      var n := r.Read(payload, payloadFilled, k);
      assert payload[..payloadFilled + n] == got + r.data[start..r.pos];
      if n == 0 {
        assert before + r.data[start..] == header[..] + got;
        HeaderThenBody(header[..], got, before + r.data[start..], maxPayload);
        return Err(Closed);
      }
      payloadFilled := payloadFilled + n;
      return Ok(payloadFilled == parsed.value.payloadLen);
    }

    /** One call: one read, or two when the first completes a header with a payload.
        `drop` says before which of them, if any, the caller drops the future. */
    method NextFrame(r: Transport, maxPayload: u32, k1: nat, k2: nat, drop: nat) returns (o: Outcome)
      requires Valid(maxPayload) && r.pos <= |r.data|
      modifies this, header, payload, r
      ensures old(r.pos) <= r.pos <= |r.data|
      ensures !o.Failed? ==> Valid(maxPayload) && (payload == old(payload) || fresh(payload))
      ensures var took := r.data[old(r.pos)..r.pos];
              match o
              case Got(f) =>
                Pending() == [] && took != []
                && ReadFrame(old(Pending()) + took, maxPayload) == Ok(Wire.At(f, |old(Pending()) + took|))
              case NotYet => Pending() == old(Pending()) + took && took != []
              case Dropped => drop in {1, 2} && Pending() == old(Pending()) + took
              case Failed(e) => Rejects(e, r, old(Pending()), old(r.pos), maxPayload)
    {
      hide ReadFrame, ParseHeader;
      ghost var start, before := r.pos, Pending();
      if drop == 1 {
        return Dropped;
      }
      if parsed.None? {
        var done := ReadHeader(r, maxPayload, k1);
        if done.Err? {
          return Failed(done.error);
        }
        if !done.value {
          return NotYet;
        }
      }
      if payloadFilled < parsed.value.payloadLen {
        if drop == 2 {
          return Dropped;
        }
        ghost var mid := r.pos;
        var done := ReadPayload(r, maxPayload, k2);
        PiecesJoin(before, r.data, start, mid, r.pos);
        if done.Err? {
          PiecesJoin(before, r.data, start, mid, |r.data|);
          assert r.data[start..|r.data|] == r.data[start..] && r.data[mid..|r.data|] == r.data[mid..];
          return Failed(done.error);
        }
        if !done.value {
          return NotYet;
        }
      }
      assert payload[..payloadFilled] == payload[..] && header[..headerFilled] == header[..];
      assert before + r.data[start..r.pos] == header[..] + payload[..];
      HeaderThenBody(header[..], payload[..], before + r.data[start..r.pos], maxPayload);
      o := Got(Frame(parsed.value.frameType, parsed.value.flags, payload[..]));
      parsed := None;
      headerFilled := 0;
    }
  }

  // ---- Any schedule ----------------------------------------------------------------------

  /** One call of a schedule: how far its reads go, and where it is dropped, if at all. */
  datatype Call = Call(k1: nat, k2: nat, drop: nat)

  /** The calls of a schedule that ask to be dropped. */
  function Drops(schedule: seq<Call>): nat {
    if schedule == [] then 0
    else Drops(schedule[..|schedule| - 1]) + (if schedule[|schedule| - 1].drop in {1, 2} then 1 else 0)
  }

  lemma {:induction false} DropsNext(schedule: seq<Call>, i: nat)
    requires i < |schedule|
    ensures Drops(schedule[..i + 1]) == Drops(schedule[..i]) + if schedule[i].drop in {1, 2} then 1 else 0
  {
    assert schedule[..i + 1][..i] == schedule[..i];
  }

  lemma WindowsJoin(data: seq<byte>, a: nat, b: nat, c: nat)
    requires a <= b <= c <= |data|
    ensures data[a..b] + data[b..c] == data[a..c]
    ensures c == |data| ==> data[b..c] == data[b..] && data[a..c] == data[a..]
  {
  }

  /** For every byte stream, every way it is cut into reads and every placement of
      cancellations, repeated `next_frame` yields what `read_frame` yields on the whole
      stream: a prefix of it at any time, all of it and the same verdict once it fails,
      and it has failed before making more undropped calls than the stream has bytes. */
  method Drive(data: seq<byte>, maxPayload: u32, schedule: seq<Call>)
    returns (out: seq<Frame>, failure: Option<ReadError>, effective: nat)
    ensures out <= AllFrames(data, maxPayload)
    ensures failure.Some? ==> out == AllFrames(data, maxPayload)
    ensures failure.Some? ==> failure.value == Reported(FinalError(data, maxPayload))
    ensures failure.None? ==> effective <= |data|
    ensures failure.None? ==> effective >= |schedule| - Drops(schedule)
  {
    hide ReadFrame, ParseHeader, AllFrames, FinalError, Yielded, FrameAssembler.Pending;
    YieldedNothing(data, maxPayload);
    var asm := new FrameAssembler(maxPayload);
    var r := new Transport(data);
    out, effective := [], 0;
    for i := 0 to |schedule|
      invariant asm.Valid(maxPayload) && fresh(asm.payload) && r.data == data
      invariant |asm.Pending()| <= r.pos <= |data| && effective <= r.pos
      invariant asm.Pending() == data[r.pos - |asm.Pending()|..r.pos]
      invariant Yielded(data, maxPayload, r.pos - |asm.Pending()|, out)
      invariant effective >= i - Drops(schedule[..i])
    {
      ghost var start, before := r.pos, asm.Pending();
      ghost var base := start - |before|;
      var o := asm.NextFrame(r, maxPayload, schedule[i].k1, schedule[i].k2, schedule[i].drop);
      WindowsJoin(data, base, start, r.pos);
      DropsNext(schedule, i);
      YieldedIsPrefix(data, maxPayload, base, out);
      match o {
        case Failed(e) =>
          WindowsJoin(data, base, start, |data|);
          YieldedEnd(data, maxPayload, base, out);
          return out, Some(e), effective;
        case Got(f) =>
          YieldedFrom(data, maxPayload, base, out, f, r.pos);
          out, effective := out + [f], effective + 1;
        case NotYet =>
          effective := effective + 1;
        case Dropped =>
      }
    }
    YieldedIsPrefix(data, maxPayload, r.pos - |asm.Pending()|, out);
    assert schedule[..|schedule|] == schedule;
    failure := None;
  }
}
