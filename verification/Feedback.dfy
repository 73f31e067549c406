/** The feedback path of a fountain-coded receive: the receive loop queues messages, a
    pump task turns them into frames on a second queue, and the main task writes those
    between polls of the receive loop, and the rest once it has ended. */
module Feedback {
  import opened Bytes
  import opened Wire
  import opened Frames

  // ---- Messages as frames --------------------------------------------------------------------

  datatype Message =
    | NeedMore(blockId: u32, symbolsNeeded: u32, symbolsReceived: u32)
    | BlockOk(blockId: u32, symbolsUsed: u32)

  const FRAME_FEC_NEEDMORE: byte := 0x18
  const FRAME_FEC_BLOCK_OK: byte := 0x19

  datatype FeedbackError = Malformed | Unexpected

  function FrameOf(m: Message): Frame {
    match m
    case NeedMore(b, n, r) => Frame(FRAME_FEC_NEEDMORE, 0, LE(b, 4) + LE(n, 4) + LE(r, 4))
    case BlockOk(b, u) => Frame(FRAME_FEC_BLOCK_OK, 0, LE(b, 4) + LE(u, 4))
  }

  function U32At(p: seq<byte>, off: nat): Result<u32, FeedbackError> {
    Pow256Values();
    match GetLE(p, off, 4) case Ok(a) => Ok(a.value) case Err(_) => Err(Malformed)
  }

  /** What the sender of the symbols makes of a frame that arrives meanwhile. */
  function MessageOf(f: Frame): Result<Message, FeedbackError> {
    if f.frameType == FRAME_FEC_NEEDMORE then
      var b :- U32At(f.payload, 0);
      var n :- U32At(f.payload, 4);
      var r :- U32At(f.payload, 8);
      Ok(NeedMore(b, n, r))
    else if f.frameType == FRAME_FEC_BLOCK_OK then
      var b :- U32At(f.payload, 0);
      var u :- U32At(f.payload, 4);
      Ok(BlockOk(b, u))
    else Err(Unexpected)
  }

  lemma MessageRoundTrip(m: Message)
    ensures MessageOf(FrameOf(m)) == Ok(m)
  {
    hide LE, FromLE;
    Pow256Values();
    var p := FrameOf(m).payload;
    match m
    case NeedMore(b, n, r) =>
      assert p[0..4] == LE(b, 4) && p[4..8] == LE(n, 4) && p[8..12] == LE(r, 4);
      GetLEofLE(p, 0, b, 4);
      GetLEofLE(p, 4, n, 4);
      GetLEofLE(p, 8, r, 4);
    case BlockOk(b, u) =>
      assert p[0..4] == LE(b, 4) && p[4..8] == LE(u, 4);
      GetLEofLE(p, 0, b, 4);
      GetLEofLE(p, 4, u, 4);
  }

  /** Which frames are messages, and which: the type decides, integers stand low byte first
      at fixed places, and flags and whatever follows are ignored. */
  lemma MessageMeans(f: Frame, m: Message)
    ensures MessageOf(f) == Ok(m) <==>
              match m
              case NeedMore(b, n, r) =>
                && f.frameType == 0x18 && |f.payload| >= 12 && f.payload[..4] == LE(b, 4)
                && f.payload[4..8] == LE(n, 4) && f.payload[8..12] == LE(r, 4)
              case BlockOk(b, u) =>
                f.frameType == 0x19 && |f.payload| >= 8 && f.payload[..4] == LE(b, 4) && f.payload[4..8] == LE(u, 4)
  {
    hide LE;
    var p := f.payload;
    match m
    case NeedMore(b, n, r) =>
      U32Means(p, 0, b);
      U32Means(p, 4, n);
      U32Means(p, 8, r);
    case BlockOk(b, u) =>
      U32Means(p, 0, b);
      U32Means(p, 4, u);
  }

  lemma {:induction false} U32Means(p: seq<byte>, off: nat, v: u32)
    ensures U32At(p, off) == Ok(v) <==> off + 4 <= |p| && p[off..off + 4] == LE(v, 4)
  {
    hide LE, FromLE;
    Pow256Values();
    if off + 4 <= |p| {
      LEofFromLE(p[off..off + 4]);
      FromLEofLE(v, 4);
    }
  }

  /** Both messages as frames, integers low byte first. */
  lemma KnownMessages()
    ensures FrameOf(NeedMore(0x0102_0304, 5, 6))
         == Frame(0x18, 0, [4, 3, 2, 1] + [5, 0, 0, 0] + [6, 0, 0, 0])
    ensures FrameOf(BlockOk(0x0102_0304, 5)) == Frame(0x19, 0, [4, 3, 2, 1] + [5, 0, 0, 0])
  {
    hide LE;
    KnownLE();
    ByteLE(5);
    ByteLE(6);
  }

  function FramesOf(ms: seq<Message>): (fs: seq<Frame>)
    ensures |fs| == |ms| && forall i :: 0 <= i < |ms| ==> fs[i] == FrameOf(ms[i])
  {
    seq(|ms|, i requires 0 <= i < |ms| => FrameOf(ms[i]))
  }

  // ---- The machine ----------------------------------------------------------------------------

  /** Both queues hold this many items; a send to a full one waits. */
  const CAPACITY := 1024

  /** `Receiving`: the `select!` loop. `Closing`: the receive future has finished, its
      sender is dropped and the pump is being awaited. `Draining`: `try_recv` until the
      frame queue is empty. */
  datatype Phase = Receiving | Closing | Draining | Flushed

  /** `sent` is everything the receive loop has queued so far; `hand` is the frame the
      pump holds between its two queues. */
  datatype State = State(phase: Phase, sent: seq<Message>, messages: seq<Message>, hand: Option<Frame>,
                         frames: seq<Frame>, written: seq<Frame>)

  datatype Step = Send(m: Message) | PumpTake | PumpPut | WriteOne | Complete | PumpExit | Flush

  predicate Enabled(s: State, st: Step) {
    match st
    case Send(_) => s.phase == Receiving && |s.messages| < CAPACITY
    case PumpTake => s.phase in {Receiving, Closing} && s.messages != [] && s.hand.None?
    case PumpPut => s.phase in {Receiving, Closing} && s.hand.Some? && |s.frames| < CAPACITY
    case WriteOne => s.phase in {Receiving, Draining} && s.frames != []
    case Complete => s.phase == Receiving
    case PumpExit => s.phase == Closing && s.messages == [] && s.hand.None?
    case Flush => s.phase == Draining && s.frames == []
  }

  function Apply(s: State, st: Step): State
    requires Enabled(s, st)
  {
    match st
    case Send(m) => s.(messages := s.messages + [m], sent := s.sent + [m])
    case PumpTake => s.(hand := Some(FrameOf(s.messages[0])), messages := s.messages[1..])
    case PumpPut => s.(frames := s.frames + [s.hand.value], hand := None)
    case WriteOne => s.(written := s.written + [s.frames[0]], frames := s.frames[1..])
    case Complete => s.(phase := Closing)
    case PumpExit => s.(phase := Draining)
    case Flush => s.(phase := Flushed)
  }

  function Start(): State {
    State(Receiving, [], [], None, [], [])
  }

  function InHand(s: State): seq<Frame> {
    if s.hand.Some? then [s.hand.value] else []
  }

  /** Nothing is lost, repeated or reordered on the way. */
  predicate Conserved(s: State) {
    s.written + s.frames + InHand(s) + FramesOf(s.messages) == FramesOf(s.sent)
  }

  predicate Inv(s: State) {
    && Conserved(s) && |s.messages| <= CAPACITY && |s.frames| <= CAPACITY
    && (s.phase in {Draining, Flushed} ==> s.messages == [] && s.hand.None?)
    && (s.phase == Flushed ==> s.frames == [])
  }

  lemma FramesOfTail(ms: seq<Message>)
    requires ms != []
    ensures FramesOf(ms) == [FrameOf(ms[0])] + FramesOf(ms[1..])
  {
  }

  lemma SendConserves(s: State, m: Message)
    requires Conserved(s)
    ensures Conserved(s.(messages := s.messages + [m], sent := s.sent + [m]))
  {
    assert FramesOf(s.messages + [m]) == FramesOf(s.messages) + [FrameOf(m)];
    assert FramesOf(s.sent + [m]) == FramesOf(s.sent) + [FrameOf(m)];
  }

  lemma TakeConserves(s: State)
    requires Conserved(s) && s.hand.None? && s.messages != []
    ensures Conserved(s.(hand := Some(FrameOf(s.messages[0])), messages := s.messages[1..]))
  {
    FramesOfTail(s.messages);
  }

  lemma WriteConserves(s: State)
    requires Conserved(s) && s.frames != []
    ensures Conserved(s.(written := s.written + [s.frames[0]], frames := s.frames[1..]))
  {
    assert s.frames == [s.frames[0]] + s.frames[1..];
  }

  lemma StepKeeps(s: State, st: Step)
    requires Inv(s) && Enabled(s, st)
    ensures Inv(Apply(s, st))
  {
    match st
    case Send(m) => SendConserves(s, m);
    case PumpTake => TakeConserves(s);
    case PumpPut =>
      assert s.written + s.frames + [s.hand.value] == s.written + (s.frames + [s.hand.value]) + [];
    case WriteOne => WriteConserves(s);
    case _ =>
  }

  predicate Run(s: State, steps: seq<Step>, t: State)
    decreases |steps|
  {
    if steps == [] then s == t else Enabled(s, steps[0]) && Run(Apply(s, steps[0]), steps[1..], t)
  }

  lemma {:induction false} RunKeeps(s: State, steps: seq<Step>, t: State)
    requires Inv(s) && Run(s, steps, t)
    ensures Inv(t)
    decreases |steps|
  {
    if steps != [] {
      StepKeeps(s, steps[0]);
      RunKeeps(Apply(s, steps[0]), steps[1..], t);
    }
  }

  /** In every interleaving, once the flush is done every message sent, the last one
      included, has been written exactly once and in order; and a peer reading the
      frames off the wire makes exactly those messages of them. */
  lemma {:induction false} EveryMessageArrives(steps: seq<Step>, t: State, maxPayload: u32)
    requires Run(Start(), steps, t) && maxPayload >= 12
    ensures Inv(t)
    ensures t.phase == Flushed ==>
      && t.written == FramesOf(t.sent)
      && AllFrames(StreamBytes(t.written), maxPayload) == t.written
      && forall i :: 0 <= i < |t.sent| ==> MessageOf(t.written[i]) == Ok(t.sent[i])
  {
    RunKeeps(Start(), steps, t);
    if t.phase == Flushed {
      assert t.written == t.written + t.frames + InHand(t) + FramesOf(t.messages);
      forall i | 0 <= i < |t.sent|
        ensures MessageOf(t.written[i]) == Ok(t.sent[i])
      {
        MessageRoundTrip(t.sent[i]);
      }
      StreamRoundTrip(t.written, maxPayload);
    }
  }

  // ---- Does the drain end? -----------------------------------------------------------------------

  /** Feedback queued or in hand, not yet written. */
  function Pending(s: State): nat {
    |s.messages| + |InHand(s)| + |s.frames|
  }

  /** Steps left once the receive loop has ended. */
  function DrainRank(s: State): nat {
    match s.phase
    case Receiving => 0
    case Closing => 3 * |s.messages| + 2 * |InHand(s)| + |s.frames| + 2
    case Draining => |s.frames| + 1
    case Flushed => 0
  }

  predicate Ended(s: State) {
    s.phase != Receiving
  }

  /** After the loop has ended, every step brings the flush nearer, and none loses or
      adds feedback before the pump has exited. */
  lemma DrainStep(s: State, st: Step)
    requires Inv(s) && Ended(s) && Enabled(s, st)
    ensures Ended(Apply(s, st)) && DrainRank(Apply(s, st)) < DrainRank(s)
    ensures s.phase == Closing ==> Pending(Apply(s, st)) == Pending(s)
  {
  }

  /** Awaiting the pump hangs when and only when it holds a frame it has no room for. */
  lemma StuckWhen(s: State)
    requires Inv(s) && Ended(s) && s.phase != Flushed
    ensures (forall st :: !Enabled(s, st)) <==> s.phase == Closing && s.hand.Some? && |s.frames| == 1024
  {
    if s.phase == Closing {
      if s.hand.None? {
        assert Enabled(s, if s.messages == [] then PumpExit else PumpTake);
      } else if |s.frames| < CAPACITY {
        assert Enabled(s, PumpPut);
      }
    } else {
      assert Enabled(s, if s.frames == [] then Flush else WriteOne);
    }
  }

  /** A run that cannot go on. */
  ghost predicate Maximal(s: State, steps: seq<Step>, t: State) {
    Run(s, steps, t) && forall st :: !Enabled(t, st)
  }

  lemma {:induction false} DrainRun(s: State, steps: seq<Step>, t: State)
    requires Inv(s) && s.phase == Closing && Run(s, steps, t)
    ensures Inv(t) && Ended(t) && |steps| <= DrainRank(s)
    ensures Pending(s) > CAPACITY ==> t.phase == Closing && Pending(t) == Pending(s)
    ensures t.phase == Closing ==> Pending(t) == Pending(s)
    decreases |steps|
  {
    if steps != [] {
      StepKeeps(s, steps[0]);
      DrainStep(s, steps[0]);
      var next := Apply(s, steps[0]);
      if next.phase == Closing {
        DrainRun(next, steps[1..], t);
      } else {
        FlushRun(next, steps[1..], t);
      }
    }
  }

  lemma {:induction false} FlushRun(s: State, steps: seq<Step>, t: State)
    requires Inv(s) && s.phase in {Draining, Flushed} && Run(s, steps, t)
    ensures Inv(t) && t.phase in {Draining, Flushed} && |steps| <= DrainRank(s)
    decreases |steps|
  {
    if steps != [] {
      StepKeeps(s, steps[0]);
      FlushRun(Apply(s, steps[0]), steps[1..], t);
    }
  }

  /** From the moment the receive loop ends every run is finite; and every run that
      cannot go on has flushed everything, exactly when at most 1024 messages were
      pending at that moment. With more, none has: the pump waits for room that nobody
      makes. */
  lemma DrainEnds(s: State, steps: seq<Step>, t: State)
    requires Inv(s) && s.phase == Closing && Maximal(s, steps, t)
    ensures |steps| <= DrainRank(s)
    ensures t.phase == Flushed <==> Pending(s) <= 1024
  {
    DrainRun(s, steps, t);
    if t.phase != Flushed {
      StuckWhen(t);
    }
  }

  // ---- The hang is reachable ------------------------------------------------------------------------

  function Repeat(m: Message, n: nat): seq<Message> {
    seq(n, _ => m)
  }

  lemma {:induction false} FillRun(m: Message, k: nat, n: nat)
    requires k + n <= CAPACITY
    ensures var s := State(Receiving, Repeat(m, k), Repeat(m, k), None, [], []);
            var t := State(Receiving, Repeat(m, k + n), Repeat(m, k + n), None, [], []);
            Run(s, seq(n, _ => Send(m)), t)
    decreases n
  {
    var sends := seq(n, _ => Send(m));
    if n > 0 {
      var s := State(Receiving, Repeat(m, k), Repeat(m, k), None, [], []);
      FillRun(m, k + 1, n - 1);
      assert Repeat(m, k) + [m] == Repeat(m, k + 1);
      assert sends[1..] == seq(n - 1, _ => Send(m));
      assert Apply(s, Send(m)) == State(Receiving, Repeat(m, k + 1), Repeat(m, k + 1), None, [], []);
    }
  }

  lemma {:induction false} RunJoin(s: State, a: seq<Step>, t: State, b: seq<Step>, u: State)
    requires Run(s, a, t) && Run(t, b, u)
    ensures Run(s, a + b, u)
    decreases |a|
  {
    if a == [] {
      assert a + b == b;
    } else {
      RunJoin(Apply(s, a[0]), a[1..], t, b, u);
      assert (a + b)[1..] == a[1..] + b;
    }
  }

  /** A receive loop that queues 1025 messages before the pump is scheduled for the
      second time, and then ends, leaves more pending than the drain can take. */
  lemma HangReachable(m: Message) returns (steps: seq<Step>, t: State)
    ensures Run(Start(), steps, t) && t.phase == Closing && Pending(t) == 1025
  {
    var full := State(Receiving, Repeat(m, CAPACITY), Repeat(m, CAPACITY), None, [], []);
    FillRun(m, 0, CAPACITY);
    assert Repeat(m, 0) == [];
    var tail := [PumpTake, Send(m), Complete];
    var s1 := Apply(full, PumpTake);
    var s2 := Apply(s1, Send(m));
    t := Apply(s2, Complete);
    assert tail[1..] == [Send(m), Complete] && tail[1..][1..] == [Complete] && tail[1..][1..][1..] == [];
    assert Run(s2, [Complete], t);
    assert Run(s1, [Send(m), Complete], t);
    assert Run(full, tail, t);
    steps := seq(CAPACITY, _ => Send(m)) + tail;
    RunJoin(Start(), seq(CAPACITY, _ => Send(m)), full, tail, t);
  }
}
