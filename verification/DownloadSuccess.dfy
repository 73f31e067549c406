/** What a download's success is worth: the runs that report it while a last piece is still
    to be written, or never will be, and exactly which downloads have none. */
module DownloadSuccess {
  import opened Bytes
  import opened Download

  // ---- When success means the source ----------------------------------------------------------------------------

  /** Byte `pos` lies in the last piece of chunk `j`. */
  predicate InLastPiece(p: Params, j: nat, pos: nat)
    requires Sane(p)
  {
    j < NumChunks(p) && Start(p, j) + LastPiece(p, j) <= pos < Start(p, j) + Len(p, j)
  }

  predicate Chunks(p: Params) {
    UseChunks(p) && |p.source| <= MAX_DOWNLOAD_SIZE
  }

  /** On its way to a chunked success, or there: no failures, and the last piece of chunk
      `j` has not landed. */
  predicate Lazily(p: Params, s: State, j: nat, pos: nat)
    requires Sane(p)
  {
    && Inv(p, s) && Chunks(p) && InLastPiece(p, j, pos)
    && (s.phase.Beginning? || s.phase.Spawning? || s.phase.Awaiting? || s.phase == Finished(Chunked))
    && (forall i :: 0 <= i < |s.tasks| ==> !s.tasks[i].Failed? && !(s.tasks[i].Done? && s.tasks[i].lost))
    && (!s.phase.Beginning? ==> Unwritten(p, s, j, pos))
  }

  predicate Unwritten(p: Params, s: State, j: nat, pos: nat)
    requires Sane(p) && j < NumChunks(p)
  {
    && |s.tasks| == NumChunks(p) && pos < |s.file| && s.file[pos] == 0
    && Written(s.tasks[j]) <= LastPiece(p, j)
  }

  /** All of a piece lands except if it is a last one. */
  function LazyMove(p: Params, t: Task, i: nat): Step
    requires Sane(p) && i < NumChunks(p) && InFlight(t)
  {
    match t
    case Fetching => Fetch(i, true)
    case Fetched => Open(i, true)
    case Writing(w, h) =>
      if h == Len(p, i) then Finish(i) else if w < h then Land(i, h - w) else Hand(i)
  }

  /** A piece that is not the last of its chunk lies clear of all last pieces. */
  lemma PiecesApart(p: Params, i: nat, h: nat, j: nat, pos: nat)
    requires Sane(p) && i < NumChunks(p) && h < Len(p, i) && h % BUFFER == 0 && InLastPiece(p, j, pos)
    ensures !(Start(p, i) <= pos < Start(p, i) + h) && h <= LastPiece(p, i)
  {
    hide ChunkRange, NumChunks, LastPiece;
    LastPieceIs(p, i, h);
    if i < j {
      ChunksApart(p, i, j);
    } else if j < i {
      ChunksApart(p, j, i);
    }
  }

  lemma LazyTask(p: Params, s: State, j: nat, pos: nat, i: nat)
    requires Sane(p) && Lazily(p, s, j, pos) && i < |s.tasks| && InFlight(s.tasks[i]) && !s.phase.Beginning?
    ensures i < NumChunks(p)
    ensures var st := LazyMove(p, s.tasks[i], i); Enabled(p, s, st) && Lazily(p, Apply(p, s, st), j, pos)
  {
    hide ChunkRange, NumChunks, LastPiece, WriteAt, Chunking, Inv;
    TasksAreChunks(p, s, i);
    var t := s.tasks[i];
    var st := LazyMove(p, t, i);
    assert Enabled(p, s, st);
    StepKeeps(p, s, st);
    if st.Land? {
      PiecesApart(p, i, t.handed, j, pos);
    }
  }

  /** A step that keeps the last piece waiting. */
  lemma LazyStep(p: Params, s: State, j: nat, pos: nat) returns (st: Step)
    requires Sane(p) && Lazily(p, s, j, pos) && !s.phase.Finished?
    ensures Enabled(p, s, st) && Healthy(st) && Lazily(p, Apply(p, s, st), j, pos)
  {
    hide ChunkRange, NumChunks, LastPiece, TaskWrote, TaskFits;
    match s.phase
    case Beginning =>
      st := Begin(true);
      LazyBegin(p, s, j, pos);
    case Spawning(next) =>
      if next == |s.tasks| {
        st := StartAwaiting;
        LazyMain(p, s, j, pos, st);
      } else if Flying(s.tasks) < NumParallel(p) {
        st := Spawn;
        LazyMain(p, s, j, pos, st);
      } else {
        var i := SomeTaskFlies(s.tasks);
        LazyTask(p, s, j, pos, i);
        st := LazyMove(p, s.tasks[i], i);
      }
    case Awaiting(next) =>
      if next == |s.tasks| {
        st := AllDone;
        LazyMain(p, s, j, pos, st);
      } else if InFlight(s.tasks[next]) {
        LazyTask(p, s, j, pos, next);
        st := LazyMove(p, s.tasks[next], next);
      } else {
        st := Await;
        LazyMain(p, s, j, pos, st);
      }
  }

  lemma LazyBegin(p: Params, s: State, j: nat, pos: nat)
    requires Sane(p) && Lazily(p, s, j, pos) && s.phase.Beginning?
    ensures Lazily(p, Apply(p, s, Begin(true)), j, pos)
  {
    hide ChunkRange, NumChunks, LastPiece, Inv;
    StepKeeps(p, s, Begin(true));
    assert Start(p, j) + Len(p, j) <= |p.source|;
  }

  lemma LazyMain(p: Params, s: State, j: nat, pos: nat, st: Step)
    requires Sane(p) && Lazily(p, s, j, pos) && Enabled(p, s, st)
    requires st.Spawn? || st.StartAwaiting? || st.Await? || st.AllDone?
    ensures Lazily(p, Apply(p, s, st), j, pos)
  {
    hide ChunkRange, NumChunks, LastPiece, Inv;
    StepKeeps(p, s, st);
  }

  /** A run without failures to a chunked success that leaves byte `pos` a zero. */
  lemma {:induction false} UnwrittenRun(p: Params, s: State, j: nat, pos: nat) returns (steps: seq<Step>, t: State)
    requires Sane(p) && Lazily(p, s, j, pos)
    ensures Run(p, s, steps, t) && t.phase == Finished(Chunked) && Lazily(p, t, j, pos)
    ensures forall i :: 0 <= i < |steps| ==> Healthy(steps[i])
    decreases Rank(p, s)
  {
    hide Enabled, Apply, Lazily, Rank, Inv;
    LazyParts(p, s, j, pos);
    if s.phase == Finished(Chunked) {
      steps, t := [], s;
    } else {
      var st := LazyStep(p, s, j, pos);
      StepFalls(p, s, st);
      var rest;
      rest, t := UnwrittenRun(p, Apply(p, s, st), j, pos);
      steps := [st] + rest;
    }
  }

  lemma LazyParts(p: Params, s: State, j: nat, pos: nat)
    requires Sane(p) && Lazily(p, s, j, pos)
    ensures Inv(p, s) && Bounded(p, s) && (s.phase.Finished? ==> s.phase == Finished(Chunked))
    ensures j < NumChunks(p)
  {
  }

  /** A piece lost after success: byte `pos` is not written any more. */
  predicate Lost(p: Params, s: State, j: nat, pos: nat)
    requires Sane(p)
  {
    && Inv(p, s) && s.phase == Finished(Chunked) && InLastPiece(p, j, pos) && Unwritten(p, s, j, pos)
    && s.tasks[j].Done? && s.tasks[j].lost
  }

  lemma LostStep(p: Params, s: State, j: nat, pos: nat, st: Step)
    requires Sane(p) && Lost(p, s, j, pos) && Enabled(p, s, st)
    ensures Lost(p, Apply(p, s, st), j, pos)
  {
    hide ChunkRange, NumChunks, LastPiece, WriteAt, TaskWrote, TaskFits;
    StepKeeps(p, s, st);
    ChunkedShape(p, s);
    if st.Land? {
      assert st.i != j;
      if st.i < j {
        ChunksApart(p, st.i, j);
      } else {
        ChunksApart(p, j, st.i);
      }
    }
  }

  lemma {:induction false} LostForGood(p: Params, s: State, j: nat, pos: nat, steps: seq<Step>, t: State)
    requires Sane(p) && Lost(p, s, j, pos) && Run(p, s, steps, t)
    ensures pos < |t.file| && t.file[pos] == 0
    decreases |steps|
  {
    hide Inv, Enabled, Apply, InLastPiece;
    if steps != [] {
      LostStep(p, s, j, pos, steps[0]);
      LostForGood(p, Apply(p, s, steps[0]), j, pos, steps[1..], t);
    }
  }

  lemma {:induction false} RunSnoc(p: Params, s: State, steps: seq<Step>, t: State, st: Step)
    requires Sane(p) && Run(p, s, steps, t) && Enabled(p, t, st)
    ensures Run(p, s, steps + [st], Apply(p, t, st))
    decreases |steps|
  {
    hide Enabled, Apply;
    if steps == [] {
      assert Run(p, Apply(p, t, st), [], Apply(p, t, st));
    } else {
      RunSnoc(p, Apply(p, s, steps[0]), steps[1..], t, st);
      assert (steps + [st])[1..] == steps[1..] + [st];
    }
  }

  /** Any byte of a last piece: a run without a failure reports success while it is still
      the zero the file was sized with; and if the write of it then fails, it stays that
      whatever follows. */
  lemma SuccessTooEarly(p: Params, j: nat, pos: nat) returns (steps: seq<Step>, t: State)
    requires Sane(p) && Chunks(p) && InLastPiece(p, j, pos)
    ensures var s := State([], [], Beginning);
            && Init(s) && Run(p, s, steps, t) && Succeeded(t)
            && (forall i :: 0 <= i < |steps| ==> Healthy(steps[i]))
            && pos < |t.file| && t.file[pos] == 0
            && Enabled(p, t, Lose(j))
            && forall more, u :: Run(p, Apply(p, t, Lose(j)), more, u) ==> pos < |u.file| && u.file[pos] == 0
  {
    hide ChunkRange, NumChunks, LastPiece;
    var s := State([], [], Beginning);
    steps, t := UnwrittenRun(p, s, j, pos);
    CanLose(p, t, j, pos);
    forall more, u | Run(p, Apply(p, t, Lose(j)), more, u)
      ensures pos < |u.file| && u.file[pos] == 0
    {
      LostForGood(p, Apply(p, t, Lose(j)), j, pos, more, u);
    }
  }

  lemma CanLose(p: Params, t: State, j: nat, pos: nat)
    requires Sane(p) && Lazily(p, t, j, pos) && t.phase == Finished(Chunked)
    ensures Enabled(p, t, Lose(j)) && Lost(p, Apply(p, t, Lose(j)), j, pos)
  {
    hide ChunkRange, NumChunks, LastPiece, TaskWrote;
    ChunkedShape(p, t);
        StepKeeps(p, t, Lose(j));
  }

  /** Success, whenever it is reported, means that the file is the source. */
  ghost predicate SuccessIsSource(p: Params)
    requires Sane(p)
  {
    forall s, steps, t :: Init(s) && Run(p, s, steps, t) && Succeeded(t) ==> t.file == p.source
  }

  /** The last pieces of all chunks hold what the file was sized with. */
  predicate EndsInZeros(p: Params)
    requires Sane(p)
  {
    forall i, pos :: 0 <= i < NumChunks(p) && 0 <= pos < |p.source| && InLastPiece(p, i, pos) ==> p.source[pos] == 0
  }

  /** Success means the source exactly if the download is not chunked, or every last piece
      is zeros anyway. */
  lemma SuccessMeansSource(p: Params)
    requires Sane(p)
    ensures SuccessIsSource(p) <==> !Chunks(p) || EndsInZeros(p)
  {
    hide ChunkRange, NumChunks, LastPiece, Inv, Run;
    if !Chunks(p) || EndsInZeros(p) {
      forall s, steps, t | Init(s) && Run(p, s, steps, t) && Succeeded(t)
        ensures t.file == p.source
      {
        InitKeeps(p, s);
        RunKeeps(p, s, steps, t);
        SucceededIsSource(p, t);
      }
    } else {
      var i, pos :| 0 <= i < NumChunks(p) && 0 <= pos < |p.source| && InLastPiece(p, i, pos) && p.source[pos] != 0;
      var steps, t := SuccessTooEarly(p, i, pos);
      assert t.file != p.source;
    }
  }

  lemma OutstandingIsLast(p: Params, t: Task, i: nat, pos: nat)
    requires Sane(p) && i < NumChunks(p) && Outstanding(p, t, i, pos)
    ensures InLastPiece(p, i, pos) && pos < |p.source|
  {
    hide ChunkRange, NumChunks, LastPiece;
  }

  lemma SucceededIsSource(p: Params, t: State)
    requires Sane(p) && Inv(p, t) && Succeeded(t) && (!Chunks(p) || EndsInZeros(p))
    ensures t.file == p.source
  {
    hide ChunkRange, NumChunks, LastPiece, Inv;
    if t.phase == Finished(Chunked) {
      ChunkedShape(p, t);
      forall pos | 0 <= pos < |p.source|
        ensures t.file[pos] == p.source[pos]
      {
        if t.file[pos] != p.source[pos] {
          var i := OnlyLastPieces(p, t, pos);
          OutstandingIsLast(p, t.tasks[i], i, pos);
        }
      }
    } else {
      StreamedShape(p, t);
    }
  }

  /** For whatever bytes, that is: exactly if the download is not chunked. */
  lemma SuccessWhateverTheBytes(p: Params)
    requires Sane(p)
    ensures (forall source: seq<byte> :: |source| == |p.source| ==> SuccessIsSource(p.(source := source)))
       <==> !UseChunks(p) || |p.source| > MAX_DOWNLOAD_SIZE
  {
    hide SuccessIsSource, InLastPiece;
    forall source: seq<byte> | |source| == |p.source|
      ensures Chunks(p.(source := source)) <==> Chunks(p)
      ensures SuccessIsSource(p.(source := source)) <==> !Chunks(p) || EndsInZeros(p.(source := source))
    {
      SuccessMeansSource(p.(source := source));
    }
    if Chunks(p) {
      var ones: seq<byte> := seq(|p.source|, _ => 1);
      NotAllZeros(p.(source := ones));
    }
  }

  lemma NotAllZeros(p: Params)
    requires Sane(p) && p.source != [] && forall pos :: 0 <= pos < |p.source| ==> p.source[pos] != 0
    ensures !EndsInZeros(p)
  {
    hide ChunkRange, LastPiece, DivCeil;
    DivCeilBounds(|p.source|, p.chunkSize);
    var pos := Start(p, 0) + LastPiece(p, 0);
    assert InLastPiece(p, 0, pos);
  }
}
