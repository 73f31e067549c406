/** A non-resuming download: chunk tasks writing one file at their offsets, and a
    truncating single-stream fallback that may run while tasks of the failed chunked
    attempt are still writing. A file handle takes a buffer of bytes at a time and writes
    it behind the task's back; a task does not wait for its last one. A run is any
    interleaving of the steps below. */
module Download {
  import opened Bytes

  const MAX_DOWNLOAD_SIZE: nat := 100 * 1024 * 1024 * 1024

  /** What a file handle takes at most in one write. */
  const BUFFER: nat := 0x20_0000

  /** The remote file and the transfer configuration; `ranged`: the server serves ranges
      and the protocol gains from them. */
  datatype Params = Params(source: seq<byte>, chunkSize: u64, parallelChunks: nat, maxRetries: u32, ranged: bool)

  predicate Sane(p: Params) {
    p.chunkSize > 0 && |p.source| < U64_LIMIT
  }

  predicate UseChunks(p: Params) {
    p.ranged && p.parallelChunks > 1 && |p.source| > p.chunkSize * 2
  }

  /** A file is fetched in chunks exactly if the server serves ranges, more than one chunk may
      be fetched at a time, and it makes at least three chunks. */
  lemma ThreeChunks(p: Params)
    requires p.chunkSize > 0
    ensures UseChunks(p) <==> p.ranged && p.parallelChunks >= 2 && NumChunks(p) >= 3
  {
    hide DivCeil;
    var n := NumChunks(p);
    DivCeilBounds(|p.source|, p.chunkSize);
    if n >= 3 {
      MulMonotone(2, n - 1, p.chunkSize, p.chunkSize);
    } else {
      MulMonotone(n, 2, p.chunkSize, p.chunkSize);
    }
  }

  // ---- Chunks -------------------------------------------------------------------------------

  function Saturate(x: nat): nat {
    Min(x, U64_LIMIT - 1)
  }

  function NumChunks(p: Params): nat
    requires p.chunkSize > 0
  {
    DivCeil(|p.source|, p.chunkSize)
  }

  /** The inclusive byte range of chunk `i`, in saturating arithmetic. */
  function ChunkRange(p: Params, i: nat): (nat, int)
    requires Sane(p)
  {
    var start: nat := Saturate(i * p.chunkSize);
    (start, Min(Saturate(start + (p.chunkSize - 1)), |p.source| - 1))
  }

  /** The ranges tile the file: each not empty, the first at 0, each where the one before
      ended, the last at the end. */
  lemma RangesTile(p: Params, i: nat)
    requires Sane(p) && i < NumChunks(p)
    ensures var (start, end) := ChunkRange(p, i);
            && start == i * p.chunkSize && start <= end < |p.source|
            && (if i + 1 < NumChunks(p) then end + 1 == ChunkRange(p, i + 1).0 else end + 1 == |p.source|)
  {
    hide DivCeil;
    var n, c := NumChunks(p), p.chunkSize;
    DivCeilBounds(|p.source|, c);
    MulMonotone(i, n - 1, c, c);
    assert (i + 1) * c == i * c + c;
    if i + 1 < n {
      MulMonotone(i + 1, n - 1, c, c);
    } else {
      assert i + 1 == n;
    }
  }

  function Start(p: Params, i: nat): nat
    requires Sane(p)
  {
    ChunkRange(p, i).0
  }

  function Len(p: Params, i: nat): (n: nat)
    requires Sane(p) && i < NumChunks(p)
    ensures Start(p, i) + n <= |p.source| && n > 0
  {
    RangesTile(p, i);
    ChunkRange(p, i).1 + 1 - ChunkRange(p, i).0
  }

  /** The last whole number of buffers below `n`. */
  function LastBuffer(n: nat): (from: nat)
    requires n > 0
    ensures from < n <= from + BUFFER && from % BUFFER == 0
  {
    (n - 1) / BUFFER * BUFFER
  }

  /** Where the last piece of chunk `i` handed to its file handle begins. */
  function LastPiece(p: Params, i: nat): (from: nat)
    requires Sane(p) && i < NumChunks(p)
    ensures from < Len(p, i) <= from + BUFFER && from % BUFFER == 0
  {
    LastBuffer(Len(p, i))
  }

  /** The chunk a byte of the source lies in. */
  lemma ChunkOf(p: Params, pos: nat) returns (i: nat)
    requires Sane(p) && pos < |p.source|
    ensures i < NumChunks(p) && Start(p, i) <= pos < Start(p, i) + Len(p, i)
  {
    hide DivCeil, ChunkRange;
    var c := p.chunkSize;
    i := pos / c;
    DivBounds(pos, c);
    DivCeilBounds(|p.source|, c);
    if i >= NumChunks(p) {
      MulMonotone(NumChunks(p), i, c, c);
    }
    RangesTile(p, i);
    if i + 1 < NumChunks(p) {
      RangesTile(p, i + 1);
    }
  }

  lemma DivBounds(x: nat, c: nat)
    requires c > 0
    ensures x / c * c <= x < (x / c + 1) * c
  {
  }

  lemma ChunksApart(p: Params, i: nat, j: nat)
    requires Sane(p) && i < j < NumChunks(p)
    ensures Start(p, i) + Len(p, i) <= Start(p, j)
  {
    RangesTile(p, i);
    RangesTile(p, i + 1);
    RangesTile(p, j);
    MulMonotone(i + 1, j, p.chunkSize, p.chunkSize);
  }

  // ---- The file ---------------------------------------------------------------------------------

  function Zeros(n: nat): (z: seq<byte>)
    ensures |z| == n
  {
    seq(n, _ => 0)
  }

  /** A write at `off`; a gap beyond the end reads as zeros. */
  function WriteAt(file: seq<byte>, off: nat, data: seq<byte>): (r: seq<byte>)
    ensures |r| == if off + |data| > |file| then off + |data| else |file|
    ensures forall i :: off <= i < off + |data| ==> r[i] == data[i - off]
    ensures forall i :: 0 <= i < |file| && !(off <= i < off + |data|) ==> r[i] == file[i]
  {
    var f := if off > |file| then file + Zeros(off - |file|) else file;
    f[..off] + data + (if off + |data| < |f| then f[off + |data|..] else [])
  }

  /** The file has the source's bytes on `[lo, hi)`. */
  predicate Agrees(file: seq<byte>, source: seq<byte>, lo: nat, hi: nat) {
    hi <= |file| && hi <= |source| && forall i :: lo <= i < hi ==> file[i] == source[i]
  }

  /** Writing source bytes where they belong never spoils a byte, whoever writes. */
  lemma WriteKeeps(file: seq<byte>, source: seq<byte>, off: nat, k: nat, lo: nat, hi: nat)
    requires off + k <= |source| && Agrees(file, source, lo, hi)
    ensures Agrees(WriteAt(file, off, source[off..off + k]), source, lo, hi)
  {
  }

  lemma WriteExtends(file: seq<byte>, source: seq<byte>, off: nat, k: nat, lo: nat)
    requires lo <= off && off + k <= |source| && Agrees(file, source, lo, off)
    ensures Agrees(WriteAt(file, off, source[off..off + k]), source, lo, off + k)
  {
  }

  // ---- States and steps ------------------------------------------------------------------------------

  /** `handed`: bytes the file handle has taken; `written`: those that are in the file.
      `lost`: a task was done before its last piece was written, and that write failed. */
  datatype Task =
    Waiting | Fetching | Fetched | Writing(written: nat, handed: nat) | Done(written: nat, lost: bool) | Failed

  datatype Ending = Chunked | Streamed | GaveUp

  /** The main flow: `Spawning(i)` before chunk `i` is spawned, `Awaiting(i)` at its
      handle, `FallBack` when the chunked attempt failed, `Retrying(r)` before attempt
      `r`, `Streaming` inside it. */
  datatype Phase =
    Beginning | Spawning(next: nat) | Awaiting(next: nat) | FallBack | Retrying(retries: nat)
    | Streaming(retries: nat, pos: nat) | Finished(how: Ending)

  datatype State = State(file: seq<byte>, tasks: seq<Task>, phase: Phase)

  datatype Step =
    /** Decide; create and size the file, or fail to. */
    | Begin(created: bool)
    | Spawn | SpawnFails | StartAwaiting | Await | AllDone
    | Fetch(i: nat, ok: bool) | Open(i: nat, ok: bool)
    /** The file handle takes the next piece, once the one before it is written. */
    | Hand(i: nat)
    /** Bytes taken reach the file, the task being done or not. */
    | Land(i: nat, k: nat)
    /** A failed write is reported when the next piece is handed over. */
    | WriteFails(i: nat)
    | Finish(i: nat)
    /** The last piece fails with nobody left to be told. */
    | Lose(i: nat)
    /** `File::create` before the fallback, whose failure is ignored. */
    | Truncate(ok: bool)
    /** One call of the handler's `download`: creates the file and may size it. */
    | Attempt(presized: bool) | AttemptFails | StreamWrite(k: nat) | StreamFails | StreamDone | GiveUp

  predicate InFlight(t: Task) {
    t.Fetching? || t.Fetched? || t.Writing?
  }

  /** Bytes of its chunk that a task has got into the file. */
  function Written(t: Task): nat {
    if t.Writing? || t.Done? then t.written else 0
  }

  /** Bytes of its chunk that can still get there. */
  function Taken(p: Params, t: Task, i: nat): nat
    requires Sane(p) && i < NumChunks(p)
  {
    match t
    case Writing(_, h) => h
    case Done(w, lost) => if lost then w else Len(p, i)
    case _ => 0
  }

  function Landed(t: Task, k: nat): Task
    requires t.Writing? || t.Done?
  {
    if t.Writing? then Writing(t.written + k, t.handed) else Done(t.written + k, t.lost)
  }

  function Flying(tasks: seq<Task>): nat {
    if tasks == [] then 0 else (if InFlight(tasks[0]) then 1 else 0) + Flying(tasks[1..])
  }

  function NumParallel(p: Params): nat
    requires p.chunkSize > 0
  {
    Min(p.parallelChunks, NumChunks(p))
  }

  predicate Enabled(p: Params, s: State, st: Step)
    requires Sane(p)
  {
    match st
    case Begin(_) => s.phase.Beginning?
    case Spawn =>
      // A permit is held from here until that chunk is done or has failed.
      s.phase.Spawning? && s.phase.next < |s.tasks| && Flying(s.tasks) < NumParallel(p)
    case SpawnFails => s.phase.Spawning?
    case StartAwaiting => s.phase.Spawning? && s.phase.next == |s.tasks|
    case Await => s.phase.Awaiting? && s.phase.next < |s.tasks|
                  && (s.tasks[s.phase.next].Done? || s.tasks[s.phase.next].Failed?)
    case AllDone => s.phase.Awaiting? && s.phase.next == |s.tasks|
    case Fetch(i, _) => i < |s.tasks| && s.tasks[i].Fetching?
    case Open(i, _) => i < |s.tasks| && s.tasks[i].Fetched?
    case Hand(i) => i < |s.tasks| && i < NumChunks(p) && s.tasks[i].Writing?
                    && s.tasks[i].written == s.tasks[i].handed < Len(p, i)
    case Land(i, k) => i < |s.tasks| && i < NumChunks(p) && (s.tasks[i].Writing? || s.tasks[i].Done?)
                       && 0 < k && s.tasks[i].written + k <= Taken(p, s.tasks[i], i) <= Len(p, i)
    case WriteFails(i) => i < |s.tasks| && i < NumChunks(p) && s.tasks[i].Writing?
                          && s.tasks[i].written < s.tasks[i].handed < Len(p, i)
    case Finish(i) => i < |s.tasks| && i < NumChunks(p) && s.tasks[i].Writing? && s.tasks[i].handed == Len(p, i)
    case Lose(i) => i < |s.tasks| && i < NumChunks(p) && s.tasks[i].Done? && !s.tasks[i].lost
                    && s.tasks[i].written < Len(p, i)
    case Truncate(_) => s.phase.FallBack?
    case Attempt(_) => s.phase.Retrying? && s.phase.retries <= p.maxRetries
    case AttemptFails => s.phase.Retrying? && s.phase.retries <= p.maxRetries
    case StreamWrite(k) => s.phase.Streaming? && 0 < k && s.phase.pos + k <= |p.source|
    case StreamFails => s.phase.Streaming?
    case StreamDone => s.phase.Streaming? && s.phase.pos == |p.source|
    case GiveUp => s.phase.Retrying? && s.phase.retries > p.maxRetries
  }

  function SetTask(s: State, i: nat, t: Task): State
    requires i < |s.tasks|
  {
    s.(tasks := s.tasks[i := t])
  }

  function Apply(p: Params, s: State, st: Step): State
    requires Sane(p) && Enabled(p, s, st)
  {
    match st
    case Begin(created) =>
      if !UseChunks(p) then s.(phase := Retrying(0))
      else if |p.source| > MAX_DOWNLOAD_SIZE || !created then s.(phase := FallBack)
      else State(Zeros(|p.source|), seq(NumChunks(p), _ => Waiting), Spawning(0))
    case Spawn => SetTask(s, s.phase.next, Fetching).(phase := Spawning(s.phase.next + 1))
    case SpawnFails => s.(phase := FallBack)
    case StartAwaiting => s.(phase := Awaiting(0))
    case Await => s.(phase := if s.tasks[s.phase.next].Done? then Awaiting(s.phase.next + 1) else FallBack)
    case AllDone => s.(phase := Finished(Chunked))
    case Fetch(i, ok) => SetTask(s, i, if ok then Fetched else Failed)
    case Open(i, ok) => SetTask(s, i, if ok then Writing(0, 0) else Failed)
    case Hand(i) => SetTask(s, i, Writing(s.tasks[i].written, Min(s.tasks[i].handed + BUFFER, Len(p, i))))
    case Land(i, k) =>
      var off := Start(p, i) + s.tasks[i].written;
      SetTask(s, i, Landed(s.tasks[i], k)).(file := WriteAt(s.file, off, p.source[off..off + k]))
    case WriteFails(i) => SetTask(s, i, Failed)
    case Finish(i) => SetTask(s, i, Done(s.tasks[i].written, false))
    case Lose(i) => SetTask(s, i, Done(s.tasks[i].written, true))
    case Truncate(ok) => s.(phase := Retrying(0), file := if ok then [] else s.file)
    case Attempt(presized) =>
      s.(phase := Streaming(s.phase.retries, 0), file := if presized then Zeros(|p.source|) else [])
    case AttemptFails => s.(phase := Retrying(s.phase.retries + 1))
    case StreamWrite(k) =>
      var pos := s.phase.pos;
      s.(phase := Streaming(s.phase.retries, pos + k), file := WriteAt(s.file, pos, p.source[pos..pos + k]))
    case StreamFails => s.(phase := Retrying(s.phase.retries + 1))
    case StreamDone => s.(phase := Finished(Streamed))
    case GiveUp => s.(phase := Finished(GaveUp))
  }

  // ---- What every step keeps ----------------------------------------------------------------------------

  /** What a task has written stands in the file, as long as nothing truncates it. */
  predicate TaskWrote(p: Params, s: State, i: nat)
    requires Sane(p) && i < |s.tasks|
  {
    Agrees(s.file, p.source, Start(p, i), Start(p, i) + Written(s.tasks[i]))
  }

  predicate TaskFits(p: Params, t: Task, i: nat)
    requires Sane(p)
  {
    && i < NumChunks(p)
    && match t
       case Writing(w, h) =>
         w <= h <= Len(p, i) && (if h < Len(p, i) then h % BUFFER == 0 else LastPiece(p, i) <= w)
       case Done(w, lost) => LastPiece(p, i) <= w <= Len(p, i) && (lost ==> w < Len(p, i))
       case _ => true
  }

  predicate Bounded(p: Params, s: State)
    requires Sane(p)
  {
    forall i :: 0 <= i < |s.tasks| ==> TaskFits(p, s.tasks[i], i)
  }

  /** No byte is anything but the source's or the zero it was made with. */
  predicate Blank(file: seq<byte>, source: seq<byte>)
    requires |file| == |source|
  {
    forall pos :: 0 <= pos < |file| ==> file[pos] == source[pos] || file[pos] == 0
  }

  predicate Chunking(p: Params, s: State)
    requires Sane(p)
  {
    && UseChunks(p) && |p.source| <= MAX_DOWNLOAD_SIZE
    && |s.file| == |p.source| && |s.tasks| == NumChunks(p) && Blank(s.file, p.source)
    && forall i :: 0 <= i < |s.tasks| ==> TaskWrote(p, s, i)
  }

  predicate Inv(p: Params, s: State)
    requires Sane(p)
  {
    && Bounded(p, s)
    && Flying(s.tasks) <= NumParallel(p)
    && match s.phase
       case Beginning => s.tasks == []
       case Spawning(next) =>
         && Chunking(p, s) && next <= |s.tasks|
         && forall i :: 0 <= i < |s.tasks| ==> (s.tasks[i] == Waiting <==> next <= i)
       case Awaiting(next) =>
         && Chunking(p, s) && next <= |s.tasks|
         && (forall i :: 0 <= i < |s.tasks| ==> s.tasks[i] != Waiting)
         && forall i :: 0 <= i < next ==> s.tasks[i].Done?
       case FallBack => true
       case Retrying(_) => true
       case Streaming(r, pos) =>
         r <= p.maxRetries && |s.file| <= |p.source| && Agrees(s.file, p.source, 0, pos)
       case Finished(Chunked) => Chunking(p, s) && forall i :: 0 <= i < |s.tasks| ==> s.tasks[i].Done?
       case Finished(Streamed) => s.file == p.source
       case Finished(GaveUp) => true
  }

  lemma {:induction false} FlyingSet(tasks: seq<Task>, i: nat, t: Task)
    requires i < |tasks|
    ensures Flying(tasks[i := t])
         == Flying(tasks) - (if InFlight(tasks[i]) then 1 else 0) + (if InFlight(t) then 1 else 0)
  {
    if i > 0 {
      FlyingSet(tasks[1..], i - 1, t);
      assert tasks[i := t][1..] == tasks[1..][i - 1 := t];
    } else {
      assert tasks[i := t][1..] == tasks[1..];
    }
  }

  lemma {:induction false} NoneFlying(n: nat)
    ensures Flying(seq(n, _ => Waiting)) == 0
  {
    if n > 0 {
      NoneFlying(n - 1);
      assert seq(n, _ => Waiting)[1..] == seq(n - 1, _ => Waiting);
    }
  }

  lemma TasksAreChunks(p: Params, s: State, i: nat)
    requires Sane(p) && Inv(p, s) && i < |s.tasks|
    ensures TaskFits(p, s.tasks[i], i) && i < NumChunks(p)
    ensures Written(s.tasks[i]) <= Len(p, i)
  {
    hide NumChunks, ChunkRange, LastPiece, Chunking;
  }

  /** Source bytes written where they belong: every task's bytes stand. */
  lemma LandKeepsChunks(p: Params, s: State, i: nat, k: nat)
    requires Sane(p) && Inv(p, s) && Enabled(p, s, Land(i, k)) && Chunking(p, s)
    ensures Chunking(p, Apply(p, s, Land(i, k)))
  {
    hide ChunkRange, WriteAt, NumChunks, LastPiece, Inv;
    var s' := Apply(p, s, Land(i, k));
    var off := Start(p, i) + s.tasks[i].written;
    forall j | 0 <= j < |s.tasks|
      ensures TaskWrote(p, s', j)
    {
      assert TaskWrote(p, s, j);
      if j == i {
        WriteExtends(s.file, p.source, off, k, Start(p, i));
      } else {
        WriteKeeps(s.file, p.source, off, k, Start(p, j), Start(p, j) + Written(s.tasks[j]));
      }
    }
  }

  lemma LandFits(p: Params, s: State, i: nat, k: nat)
    requires Sane(p) && Bounded(p, s) && Enabled(p, s, Land(i, k))
    ensures Bounded(p, Apply(p, s, Land(i, k)))
  {
    hide ChunkRange, WriteAt, NumChunks, LastPiece;
    assert TaskFits(p, s.tasks[i], i);
  }

  /** Bytes of task `i` landing, whatever else is going on. */
  lemma TaskLandKeeps(p: Params, s: State, i: nat, k: nat)
    requires Sane(p) && Inv(p, s) && Enabled(p, s, Land(i, k))
    ensures Inv(p, Apply(p, s, Land(i, k)))
  {
    hide ChunkRange, WriteAt, NumChunks, Chunking, Bounded, TaskFits, Flying;
    var off := Start(p, i) + s.tasks[i].written;
    LandFits(p, s, i, k);
    FlyingSet(s.tasks, i, Landed(s.tasks[i], k));
    if s.phase.Spawning? || s.phase.Awaiting? || s.phase == Finished(Chunked) {
      LandKeepsChunks(p, s, i, k);
    } else if s.phase.Streaming? {
      WriteKeeps(s.file, p.source, off, k, 0, s.phase.pos);
    } else if s.phase == Finished(Streamed) {
      WriteKeeps(s.file, p.source, off, k, 0, |p.source|);
    }
  }

  /** The next piece handed over is a whole buffer, or the last. */
  lemma HandFits(p: Params, t: Task, i: nat)
    requires Sane(p) && TaskFits(p, t, i) && t.Writing? && t.written == t.handed < Len(p, i)
    ensures TaskFits(p, Writing(t.written, Min(t.handed + BUFFER, Len(p, i))), i)
  {
    hide ChunkRange, NumChunks, LastPiece;
    LastPieceIs(p, i, t.handed);
  }

  /** The last piece begins at the only whole number of buffers this close to the end. */
  lemma LastPieceIs(p: Params, i: nat, h: nat)
    requires Sane(p) && i < NumChunks(p) && h < Len(p, i) && h % BUFFER == 0
    ensures if h + BUFFER < Len(p, i) then h < LastPiece(p, i) else h == LastPiece(p, i)
  {
    hide ChunkRange, NumChunks, LastPiece;
    var from := LastPiece(p, i);
  }

  /** Any other step of a chunk task: it writes nothing. */
  lemma TaskStepKeeps(p: Params, s: State, i: nat, t: Task)
    requires Sane(p) && Inv(p, s) && i < |s.tasks| && t != Waiting && TaskFits(p, t, i)
    requires InFlight(s.tasks[i]) || (s.tasks[i].Done? && t.Done?)
    requires Written(t) == (if t.Failed? then 0 else Written(s.tasks[i]))
    ensures Inv(p, SetTask(s, i, t))
  {
    hide ChunkRange, NumChunks, LastPiece;
    var s' := SetTask(s, i, t);
    FlyingSet(s.tasks, i, t);
    if Chunking(p, s) {
      forall j | 0 <= j < |s.tasks|
        ensures TaskWrote(p, s', j)
      {
        assert TaskWrote(p, s, j);
      }
    }
  }

  /** With all tasks done, a byte that is not the source's is a zero of a last piece that
      has not landed. */
  predicate Outstanding(p: Params, t: Task, i: nat, pos: nat)
    requires Sane(p) && i < NumChunks(p)
  {
    t.Done? && Start(p, i) + t.written <= pos < Start(p, i) + Len(p, i) && LastPiece(p, i) <= t.written
  }

  lemma OnlyLastPieces(p: Params, s: State, pos: nat) returns (i: nat)
    requires Sane(p) && Inv(p, s) && s.phase == Finished(Chunked)
    requires pos < |s.file| == |p.source| && s.file[pos] != p.source[pos]
    ensures i < |s.tasks| == NumChunks(p) && Outstanding(p, s.tasks[i], i, pos) && s.file[pos] == 0
  {
    hide ChunkRange, NumChunks, LastPiece;
    i := ChunkOf(p, pos);
    TasksAreChunks(p, s, i);
    assert TaskWrote(p, s, i);
  }

  /** Every piece has landed. */
  predicate AllLanded(p: Params, s: State)
    requires Sane(p)
  {
    forall i :: 0 <= i < |s.tasks| && i < NumChunks(p) ==> s.tasks[i] == Done(Len(p, i), false)
  }

  lemma AllLandedMeansSource(p: Params, s: State)
    requires Sane(p) && Inv(p, s) && s.phase == Finished(Chunked) && AllLanded(p, s)
    ensures s.file == p.source
  {
    hide ChunkRange, NumChunks, LastPiece;
    forall pos | 0 <= pos < |p.source|
      ensures s.file[pos] == p.source[pos]
    {
      if s.file[pos] != p.source[pos] {
        var i := OnlyLastPieces(p, s, pos);
      }
    }
  }

  lemma BeginKeeps(p: Params, s: State, created: bool)
    requires Sane(p) && Inv(p, s) && Enabled(p, s, Begin(created))
    ensures Inv(p, Apply(p, s, Begin(created)))
  {
    hide ChunkRange, NumChunks;
    NoneFlying(NumChunks(p));
    var s' := Apply(p, s, Begin(created));
    forall i | 0 <= i < |s'.tasks|
      ensures TaskFits(p, s'.tasks[i], i) && TaskWrote(p, s', i)
    {
      assert Start(p, i) + Len(p, i) <= |p.source|;
    }
  }

  lemma SpawnKeeps(p: Params, s: State)
    requires Sane(p) && Inv(p, s) && Enabled(p, s, Spawn)
    ensures Inv(p, Apply(p, s, Spawn))
  {
    hide ChunkRange, NumChunks;
    var s' := Apply(p, s, Spawn);
    FlyingSet(s.tasks, s.phase.next, Fetching);
    assert TaskFits(p, s.tasks[s.phase.next], s.phase.next);
    forall j | 0 <= j < |s'.tasks|
      ensures TaskWrote(p, s', j) && TaskFits(p, s'.tasks[j], j)
    {
      assert TaskWrote(p, s, j) && TaskFits(p, s.tasks[j], j);
    }
  }

  /** The steps of the main flow after the chunk tasks have been spawned. */
  lemma MainStepKeeps(p: Params, s: State, st: Step)
    requires Sane(p) && Inv(p, s) && Enabled(p, s, st)
    requires st.SpawnFails? || st.StartAwaiting? || st.Await? || st.AllDone? || st.Truncate? || st.Attempt?
          || st.AttemptFails? || st.StreamWrite? || st.StreamFails? || st.StreamDone? || st.GiveUp?
    ensures Inv(p, Apply(p, s, st))
  {
    hide ChunkRange, WriteAt, NumChunks, TaskWrote, TaskFits, Flying;
    var s' := Apply(p, s, st);
    assert s'.tasks == s.tasks;
    if st.StreamWrite? {
      WriteExtends(s.file, p.source, s.phase.pos, st.k, 0);
    } else if st.StartAwaiting? || st.Await? || st.AllDone? {
      assert s'.file == s.file;
      forall j | 0 <= j < |s.tasks|
        ensures TaskWrote(p, s', j)
      {
        SameWrote(p, s, s', j);
      }
    }
  }

  lemma SameWrote(p: Params, s: State, s': State, j: nat)
    requires Sane(p) && j < |s.tasks| && TaskWrote(p, s, j)
    requires s'.tasks == s.tasks && s'.file == s.file
    ensures TaskWrote(p, s', j)
  {
  }

  predicate OfTask(st: Step) {
    st.Fetch? || st.Open? || st.Hand? || st.Land? || st.WriteFails? || st.Finish? || st.Lose?
  }

  /** A chunk task fetches its range, opens the file, hands over a piece. */
  lemma TaskGoesOnKeeps(p: Params, s: State, st: Step)
    requires Sane(p) && Inv(p, s) && Enabled(p, s, st) && (st.Fetch? || st.Open? || st.Hand?)
    ensures Inv(p, Apply(p, s, st)) && Apply(p, s, st).phase == s.phase
  {
    hide ChunkRange, WriteAt, Inv, NumChunks, LastPiece;
    var i := st.i;
    TasksAreChunks(p, s, i);
    match st
    case Fetch(_, ok) => TaskStepKeeps(p, s, i, if ok then Fetched else Failed);
    case Open(_, ok) => TaskStepKeeps(p, s, i, if ok then Writing(0, 0) else Failed);
    case Hand(_) =>
      HandFits(p, s.tasks[i], i);
      TaskStepKeeps(p, s, i, Writing(s.tasks[i].written, Min(s.tasks[i].handed + BUFFER, Len(p, i))));
  }

  /** A chunk task ends, or what it left behind is lost. */
  lemma TaskEndsKeeps(p: Params, s: State, st: Step)
    requires Sane(p) && Inv(p, s) && Enabled(p, s, st) && (st.WriteFails? || st.Finish? || st.Lose?)
    ensures Inv(p, Apply(p, s, st)) && Apply(p, s, st).phase == s.phase
  {
    hide ChunkRange, WriteAt, Inv, NumChunks, LastPiece;
    var i := st.i;
    TasksAreChunks(p, s, i);
    match st
    case WriteFails(_) => TaskStepKeeps(p, s, i, Failed);
    case Finish(_) => TaskStepKeeps(p, s, i, Done(s.tasks[i].written, false));
    case Lose(_) => TaskStepKeeps(p, s, i, Done(s.tasks[i].written, true));
  }

  lemma StepKeeps(p: Params, s: State, st: Step)
    requires Sane(p) && Inv(p, s) && Enabled(p, s, st)
    ensures Inv(p, Apply(p, s, st))
    ensures s.phase.Finished? ==> Apply(p, s, st).phase == s.phase
  {
    hide ChunkRange, WriteAt, Inv, NumChunks, LastPiece;
    if st.Fetch? || st.Open? || st.Hand? {
      TaskGoesOnKeeps(p, s, st);
    } else if st.WriteFails? || st.Finish? || st.Lose? {
      TaskEndsKeeps(p, s, st);
    } else if st.Land? {
      TaskLandKeeps(p, s, st.i, st.k);
    } else if st.Begin? {
      BeginKeeps(p, s, st.created);
    } else if st.Spawn? {
      SpawnKeeps(p, s);
    } else {
      MainStepKeeps(p, s, st);
    }
  }

  // ---- Runs ------------------------------------------------------------------------------------------------

  predicate Run(p: Params, s: State, steps: seq<Step>, t: State)
    requires Sane(p)
    decreases |steps|
  {
    if steps == [] then s == t
    else Enabled(p, s, steps[0]) && Run(p, Apply(p, s, steps[0]), steps[1..], t)
  }

  /** Before the download, whatever file there was. */
  predicate Init(s: State) {
    s.phase == Beginning && s.tasks == []
  }

  lemma InitKeeps(p: Params, s: State)
    requires Sane(p) && Init(s)
    ensures Inv(p, s)
  {
  }

  lemma FlyingBound(p: Params, s: State)
    requires Sane(p) && Inv(p, s)
    ensures Flying(s.tasks) <= NumParallel(p)
  {
  }

  lemma {:induction false} RunKeeps(p: Params, s: State, steps: seq<Step>, t: State)
    requires Sane(p) && Inv(p, s) && Run(p, s, steps, t)
    ensures Inv(p, t) && (s.phase.Finished? ==> t.phase == s.phase)
    decreases |steps|
  {
    hide Inv, Enabled, Apply;
    if steps != [] {
      StepKeeps(p, s, steps[0]);
      RunKeeps(p, Apply(p, s, steps[0]), steps[1..], t);
    }
  }

  predicate Succeeded(s: State) {
    s.phase == Finished(Chunked) || s.phase == Finished(Streamed)
  }

  /** In every interleaving: no more than `num_parallel` tasks are ever in flight. After
      a single-stream success the destination is the source and stays the source, whatever
      tasks left over from a failed chunked attempt still write. After a chunked success
      it differs at most on last pieces that have not landed, where it holds zeros; once
      all of them have, none lost, it is the source and stays so. */
  lemma {:induction false} DownloadIsSafe(p: Params, s: State, steps: seq<Step>, t: State, more: seq<Step>, u: State)
    requires Sane(p) && Init(s) && Run(p, s, steps, t) && Run(p, t, more, u)
    ensures Flying(t.tasks) <= NumParallel(p)
    ensures t.phase == Finished(Streamed) ==> t.file == p.source && u.phase == t.phase && u.file == p.source
    ensures t.phase == Finished(Chunked) ==>
              && u.phase == t.phase && |t.file| == |p.source| && |t.tasks| == NumChunks(p)
              && (forall pos :: 0 <= pos < |t.file| && t.file[pos] != p.source[pos] ==>
                    t.file[pos] == 0 && exists i :: 0 <= i < |t.tasks| && Outstanding(p, t.tasks[i], i, pos))
              && (AllLanded(p, t) ==> t.file == p.source && AllLanded(p, u) && u.file == p.source)
  {
    hide Inv, Outstanding, AllLanded;
    InitKeeps(p, s);
    RunKeeps(p, s, steps, t);
    FlyingBound(p, t);
    RunKeeps(p, t, more, u);
    if t.phase == Finished(Chunked) {
      ChunkedShape(p, t);
      forall pos | 0 <= pos < |t.file| && t.file[pos] != p.source[pos]
        ensures t.file[pos] == 0 && exists i :: 0 <= i < |t.tasks| && Outstanding(p, t.tasks[i], i, pos)
      {
        var i := OnlyLastPieces(p, t, pos);
      }
      if AllLanded(p, t) {
        StaysLanded(p, t, more, u);
        AllLandedMeansSource(p, t);
        AllLandedMeansSource(p, u);
      }
    } else if t.phase == Finished(Streamed) {
      StreamedShape(p, t);
      StreamedShape(p, u);
    }
  }

  lemma ChunkedShape(p: Params, s: State)
    requires Sane(p) && Inv(p, s) && s.phase == Finished(Chunked)
    ensures UseChunks(p) && |p.source| <= MAX_DOWNLOAD_SIZE
    ensures |s.file| == |p.source| && |s.tasks| == NumChunks(p)
    ensures forall i :: 0 <= i < |s.tasks| ==> s.tasks[i].Done?
  {
    hide ChunkRange, NumChunks, TaskWrote;
  }

  lemma StreamedShape(p: Params, s: State)
    requires Sane(p) && Inv(p, s) && s.phase == Finished(Streamed)
    ensures s.file == p.source
  {
  }

  /** After a chunked success only last pieces move; with all of them landed nothing does. */
  lemma {:induction false} StaysLanded(p: Params, s: State, steps: seq<Step>, t: State)
    requires Sane(p) && Inv(p, s) && s.phase == Finished(Chunked) && AllLanded(p, s) && Run(p, s, steps, t)
    ensures AllLanded(p, t)
    decreases |steps|
  {
    hide Inv, Enabled, AllLanded;
    if steps != [] {
      NothingLeft(p, s, steps[0]);
    }
  }

  lemma NothingLeft(p: Params, s: State, st: Step)
    requires Sane(p) && Inv(p, s) && s.phase == Finished(Chunked) && AllLanded(p, s)
    ensures !Enabled(p, s, st)
  {
    hide ChunkRange, NumChunks, TaskWrote;
    ChunkedShape(p, s);
  }

  // ---- Runs end -------------------------------------------------------------------------------------------------

  function TaskRank(p: Params, t: Task, i: nat): nat
    requires Sane(p) && TaskFits(p, t, i)
  {
    match t
    case Waiting => 2 * Len(p, i) + 5
    case Fetching => 2 * Len(p, i) + 4
    case Fetched => 2 * Len(p, i) + 3
    case Writing(w, h) => (Len(p, i) - w) + (Len(p, i) - h) + 2
    case Done(w, lost) => if lost then 0 else Len(p, i) - w + 1
    case Failed => 0
  }

  function TasksRank(p: Params, tasks: seq<Task>): nat
    requires Sane(p) && forall i :: 0 <= i < |tasks| ==> TaskFits(p, tasks[i], i)
  {
    if tasks == [] then 0
    else
      var n := |tasks| - 1;
      assert forall i :: 0 <= i < n ==> tasks[..n][i] == tasks[i];
      TasksRank(p, tasks[..n]) + TaskRank(p, tasks[n], n)
  }

  lemma {:induction false} TasksRankSet(p: Params, tasks: seq<Task>, i: nat, t: Task)
    requires Sane(p) && i < |tasks| && TaskFits(p, t, i)
    requires forall j :: 0 <= j < |tasks| ==> TaskFits(p, tasks[j], j)
    ensures TasksRank(p, tasks[i := t]) == TasksRank(p, tasks) - TaskRank(p, tasks[i], i) + TaskRank(p, t, i)
  {
    hide TaskRank, TaskFits;
    var n := |tasks| - 1;
    assert TaskFits(p, tasks[i], i);
    var tasks' := tasks[i := t];
    assert forall j :: 0 <= j < |tasks'| ==> TaskFits(p, tasks'[j], j);
    assert forall j :: 0 <= j < n ==> tasks[..n][j] == tasks[j];
    if i < n {
      TasksRankSet(p, tasks[..n], i, t);
      assert tasks'[..n] == tasks[..n][i := t];
    } else {
      assert tasks'[..n] == tasks[..n];
    }
  }

  /** The attempts left, each allowed to write the whole file. */
  function AttemptsRank(p: Params, retries: nat): nat {
    if retries > p.maxRetries then 1 else (p.maxRetries + 1 - retries) * (|p.source| + 3) + 1
  }

  lemma OneAttemptLess(p: Params, r: nat)
    requires r <= p.maxRetries
    ensures AttemptsRank(p, r) == AttemptsRank(p, r + 1) + |p.source| + 3
  {
    assert (p.maxRetries + 1 - r) * (|p.source| + 3) == (p.maxRetries - r) * (|p.source| + 3) + (|p.source| + 3);
  }

  function AllWaiting(p: Params): (tasks: seq<Task>)
    requires Sane(p)
    ensures forall i :: 0 <= i < |tasks| ==> TaskFits(p, tasks[i], i)
  {
    seq(NumChunks(p), _ => Waiting)
  }

  function PhaseRank(p: Params, phase: Phase): nat
    requires Sane(p)
  {
    var fallBack, n := AttemptsRank(p, 0) + 1, NumChunks(p);
    match phase
    case Beginning => fallBack + 2 * n + 4 + TasksRank(p, AllWaiting(p))
    case Spawning(next) => fallBack + n + 3 + (if next <= n then n - next else 0)
    case Awaiting(next) => fallBack + 1 + (if next <= n then n - next else 0)
    case FallBack => fallBack
    case Retrying(r) => AttemptsRank(p, r)
    case Streaming(r, pos) => AttemptsRank(p, r + 1) + 1 + (if pos <= |p.source| then |p.source| - pos else 0)
    case Finished(_) => 0
  }

  function Rank(p: Params, s: State): nat
    requires Sane(p) && Bounded(p, s)
  {
    PhaseRank(p, s.phase) + TasksRank(p, s.tasks)
  }

  /** A chunk task's step takes its own rank down and touches no other task. */
  lemma TaskStepFalls(p: Params, s: State, st: Step)
    requires Sane(p) && Bounded(p, s) && Enabled(p, s, st) && Bounded(p, Apply(p, s, st)) && OfTask(st)
    ensures var s', i := Apply(p, s, st), st.i;
            && i < |s.tasks| && s'.phase == s.phase && s'.tasks == s.tasks[i := s'.tasks[i]]
            && TaskFits(p, s.tasks[i], i) && TaskFits(p, s'.tasks[i], i)
            && TaskRank(p, s'.tasks[i], i) < TaskRank(p, s.tasks[i], i)
  {
    hide ChunkRange, NumChunks, WriteAt, LastPiece;
    var s' := Apply(p, s, st);
    assert TaskFits(p, s.tasks[st.i], st.i) && TaskFits(p, s'.tasks[st.i], st.i);
  }

  lemma FetchingRanksLower(p: Params, i: nat)
    requires Sane(p) && i < NumChunks(p)
    ensures TaskFits(p, Waiting, i) && TaskFits(p, Fetching, i) && TaskRank(p, Fetching, i) < TaskRank(p, Waiting, i)
  {
  }

  /** What the main flow's steps do to the rank. */
  lemma PhaseRankFalls(p: Params, s: State, st: Step)
    requires Sane(p) && Inv(p, s) && Enabled(p, s, st)
    requires !OfTask(st) && !st.Begin?
    ensures PhaseRank(p, Apply(p, s, st).phase) < PhaseRank(p, s.phase)
  {
    hide ChunkRange, NumChunks, WriteAt, TasksRank, AttemptsRank, AllWaiting;
    if s.phase.Retrying? && s.phase.retries <= p.maxRetries {
      OneAttemptLess(p, s.phase.retries);
    }
    AttemptsRankPositive(p, s.phase);
  }

  lemma AttemptsRankPositive(p: Params, phase: Phase)
    ensures phase.Retrying? ==> AttemptsRank(p, phase.retries) > 0
  {
  }

  /** A task's step takes its rank down and leaves the main flow where it is. */
  lemma TaskRankFalls(p: Params, s: State, s': State, i: nat, t: Task)
    requires Sane(p) && Bounded(p, s) && Bounded(p, s') && i < |s.tasks|
    requires s'.phase == s.phase && s'.tasks == s.tasks[i := t]
    requires TaskFits(p, t, i) && TaskFits(p, s.tasks[i], i) && TaskRank(p, t, i) < TaskRank(p, s.tasks[i], i)
    ensures Rank(p, s') < Rank(p, s)
  {
    hide PhaseRank, TasksRank, TaskRank, TaskFits;
    TasksRankSet(p, s.tasks, i, t);
  }

  lemma StepFalls(p: Params, s: State, st: Step)
    requires Sane(p) && Inv(p, s) && Enabled(p, s, st)
    ensures Bounded(p, Apply(p, s, st)) && Rank(p, Apply(p, s, st)) < Rank(p, s)
  {
    hide ChunkRange, NumChunks, WriteAt, TasksRank, PhaseRank, Chunking, TaskRank, TaskFits, LastPiece;
    var s' := Apply(p, s, st);
    StepKeeps(p, s, st);
    assert Bounded(p, s');
    if OfTask(st) {
      TaskStepFalls(p, s, st);
      TaskRankFalls(p, s, s', st.i, s'.tasks[st.i]);
    } else if st.Begin? {
      BeginFalls(p, s, st.created);
    } else {
      PhaseRankFalls(p, s, st);
      if st.Spawn? {
        var i := s.phase.next;
        assert TaskFits(p, s.tasks[i], i) && TaskFits(p, s'.tasks[i], i);
        TasksRankSet(p, s.tasks, i, Fetching);
        TasksAreChunks(p, s, i);
        FetchingRanksLower(p, i);
      }
    }
  }

  lemma BeginFalls(p: Params, s: State, created: bool)
    requires Sane(p) && Inv(p, s) && Enabled(p, s, Begin(created)) && Bounded(p, Apply(p, s, Begin(created)))
    ensures Rank(p, Apply(p, s, Begin(created))) < Rank(p, s)
  {
    hide ChunkRange, NumChunks, TasksRank;
    var s' := Apply(p, s, Begin(created));
    if s'.phase.Spawning? {
      assert s'.tasks == AllWaiting(p);
    } else {
      assert s'.tasks == s.tasks;
    }
  }

  /** However the steps interleave and whatever fails, a download is over after finitely
      many of them, late writes of leftover tasks included. */
  lemma {:induction false} RunsEnd(p: Params, s: State, steps: seq<Step>, t: State)
    requires Sane(p) && Inv(p, s) && Run(p, s, steps, t)
    ensures |steps| <= Rank(p, s)
    decreases |steps|
  {
    hide Inv, Enabled, Apply, Rank;
    if steps != [] {
      StepFalls(p, s, steps[0]);
      StepKeeps(p, s, steps[0]);
      RunsEnd(p, Apply(p, s, steps[0]), steps[1..], t);
    }
  }

  /** Steps that are not failures. */
  predicate Healthy(st: Step) {
    match st
    case Fetch(_, ok) => ok
    case Open(_, ok) => ok
    case SpawnFails => false
    case WriteFails(_) => false
    case Lose(_) => false
    case AttemptFails => false
    case StreamFails => false
    case _ => true
  }

  lemma {:induction false} SomeTaskFlies(tasks: seq<Task>) returns (i: nat)
    requires Flying(tasks) > 0
    ensures i < |tasks| && InFlight(tasks[i])
  {
    if InFlight(tasks[0]) {
      i := 0;
    } else {
      var j := SomeTaskFlies(tasks[1..]);
      i := j + 1;
    }
  }

  lemma TaskCanMove(p: Params, s: State, i: nat) returns (st: Step)
    requires Sane(p) && Inv(p, s) && i < |s.tasks| && InFlight(s.tasks[i])
    ensures Enabled(p, s, st) && Healthy(st)
  {
    hide ChunkRange, NumChunks;
    assert TaskFits(p, s.tasks[i], i);
    match s.tasks[i]
    case Fetching => st := Fetch(i, true);
    case Fetched => st := Open(i, true);
    case Writing(w, h) => st := if h == Len(p, i) then Finish(i) else if w < h then Land(i, 1) else Hand(i);
  }

  /** Short of its end a download can always go on, without anything having to fail:
      when no permit is free, some task holding one can move. */
  lemma NeverStuck(p: Params, s: State) returns (st: Step)
    requires Sane(p) && Inv(p, s) && !s.phase.Finished?
    ensures Enabled(p, s, st) && Healthy(st)
  {
    hide ChunkRange, TaskWrote;
    match s.phase
    case Beginning => st := Begin(true);
    case Spawning(next) =>
      if next == |s.tasks| {
        st := StartAwaiting;
      } else if Flying(s.tasks) < NumParallel(p) {
        st := Spawn;
      } else {
        var i := SomeTaskFlies(s.tasks);
        st := TaskCanMove(p, s, i);
      }
    case Awaiting(next) =>
      if next == |s.tasks| {
        st := AllDone;
      } else if InFlight(s.tasks[next]) {
        st := TaskCanMove(p, s, next);
      } else {
        st := Await;
      }
    case FallBack => st := Truncate(true);
    case Retrying(r) => st := if r <= p.maxRetries then Attempt(false) else GiveUp;
    case Streaming(_, pos) => st := if pos < |p.source| then StreamWrite(1) else StreamDone;
  }
}
