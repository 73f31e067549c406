/** Any number of uploads into one directory at once. The server gives each connection a
    task of its own and no upload a staging name of its own; an open file is followed by
    its handle, whatever its name becomes. A run is any interleaving of the steps below. */
module Uploads {
  import opened Bytes
  import opened Frames
  import Download
  import Put
  import Wire

  type Session = Put.Session

  // ---- The directory and the handlers ------------------------------------------------------------

  datatype Entry = Folder | File(id: nat)

  /** One run of `handle_put`. `rest` is what it has still to read, `got` what it has hashed,
      and `written` how much of that its file handle has written, at its own offset.
      `Closing`: it has given up, and a write it started may still land. */
  datatype Handler =
    | Idle
    | Receiving(id: nat, rest: seq<byte>, got: seq<byte>, written: nat)
    | Verified(id: nat, got: seq<byte>, written: nat)
    | Closing(id: nat, got: seq<byte>, written: nat)
    | Ended

  /** `disk` holds the files by identity; a name leads to at most one of them. */
  datatype State = State(dir: map<string, Entry>, disk: seq<seq<byte>>, handlers: seq<Handler>)

  /** What the uploads are: the final name and the incoming bytes of each. */
  datatype Jobs = Jobs(names: seq<string>, streams: seq<seq<byte>>)

  predicate Matching(j: Jobs, s: State) {
    |j.names| == |j.streams| == |s.handlers|
  }

  function Temp(j: Jobs, u: nat): string
    requires u < |j.names|
  {
    Put.TempName(j.names[u])
  }

  datatype Step =
    /** `create_dir_all` of an upload to a deeper path. */
    | MakeFolder(name: string)
    /** `File::create` of the staging file: truncates what is there. */
    | Start(u: nat)
    /** One frame. */
    | Take(u: nat)
    | Write(u: nat, k: nat)
    /** An I/O error, or the end of the connection. */
    | Break(u: nat)
    /** `empty`: a folder at the final name is empty. */
    | Rename(u: nat, empty: bool)
    | Close(u: nat)

  predicate Open(h: Handler) {
    h.Receiving? || h.Verified? || h.Closing?
  }

  predicate Enabled(j: Jobs, s: State, st: Step)
    requires Matching(j, s)
  {
    match st
    case MakeFolder(name) => name !in s.dir
    case Start(u) => u < |s.handlers| && s.handlers[u].Idle?
    case Take(u) => u < |s.handlers| && s.handlers[u].Receiving?
    case Write(u, k) => u < |s.handlers| && Open(s.handlers[u]) && 0 < k && s.handlers[u].id < |s.disk|
                        && s.handlers[u].written + k <= |s.handlers[u].got|
    case Break(u) => u < |s.handlers| && (s.handlers[u].Receiving? || s.handlers[u].Verified?)
    case Rename(u, _) =>
      // The file has been flushed and its handle dropped.
      u < |s.handlers| && s.handlers[u].Verified? && s.handlers[u].written == |s.handlers[u].got|
    case Close(u) => u < |s.handlers| && s.handlers[u].Closing?
  }

  function Set(s: State, u: nat, h: Handler): State
    requires u < |s.handlers|
  {
    s.(handlers := s.handlers[u := h])
  }

  /** `remove_file`, its failure ignored. */
  function Removed(dir: map<string, Entry>, name: string): map<string, Entry> {
    if name in dir && dir[name].File? then dir - {name} else dir
  }

  /** `rename`, or the directory as it was where it fails. */
  function Renamed(dir: map<string, Entry>, from: string, to: string, empty: bool): map<string, Entry> {
    if from !in dir || from == to then dir
    else if to in dir && (dir[from].Folder? != dir[to].Folder? || (dir[to].Folder? && !empty)) then dir
    else (dir - {from})[to := dir[from]]
  }

  function Started(j: Jobs, s: State, u: nat): State
    requires Matching(j, s) && u < |s.handlers|
  {
    var temp := Temp(j, u);
    if temp in s.dir && s.dir[temp].Folder? then Set(s, u, Ended)
    else if temp in s.dir then
      var id := s.dir[temp].id;
      var disk := if id < |s.disk| then s.disk[id := []] else s.disk;
      State(s.dir, disk, s.handlers[u := Receiving(id, j.streams[u], [], 0)])
    else
      State(s.dir[temp := File(|s.disk|)], s.disk + [[]],
            s.handlers[u := Receiving(|s.disk|, j.streams[u], [], 0)])
  }

  function Taken(c: Session, j: Jobs, s: State, u: nat): State
    requires Matching(j, s) && u < |s.handlers| && s.handlers[u].Receiving? && c.Cap() < U32_LIMIT
  {
    var h := s.handlers[u];
    var giveUp := Set(s, u, Closing(h.id, h.got, h.written));
    var reject := giveUp.(dir := Removed(s.dir, Temp(j, u)));
    match ReadFrame(h.rest, c.Cap())
    case Err(_) => giveUp
    case Ok(a) =>
      if a.value.frameType == Put.FRAME_DATA then
        var data := Put.DecodeData(c, a.value);
        if data.None? then giveUp else Set(s, u, Receiving(h.id, h.rest[a.off..], h.got + data.value, h.written))
      else if a.value.frameType == Put.FRAME_DATA_END then
        var e := Put.ParseEnd(a.value.payload);
        if e.None? then giveUp
        else if e.value.total != |h.got| || !Put.DigestOk(c, e.value, h.got) then reject
        else Set(s, u, Verified(h.id, h.got, h.written))
      else reject
  }

  function Wrote(h: Handler, k: nat): Handler
    requires Open(h)
  {
    match h
    case Receiving(id, rest, got, written) => Receiving(id, rest, got, written + k)
    case Verified(id, got, written) => Verified(id, got, written + k)
    case Closing(id, got, written) => Closing(id, got, written + k)
  }

  function Apply(c: Session, j: Jobs, s: State, st: Step): (t: State)
    requires c.Cap() < U32_LIMIT && Matching(j, s) && Enabled(j, s, st)
    ensures Matching(j, t)
  {
    match st
    case MakeFolder(name) => s.(dir := s.dir[name := Folder])
    case Start(u) => Started(j, s, u)
    case Take(u) => Taken(c, j, s, u)
    case Write(u, k) =>
      var h := s.handlers[u];
      var file := Download.WriteAt(s.disk[h.id], h.written, h.got[h.written..h.written + k]);
      Set(s, u, Wrote(h, k)).(disk := s.disk[h.id := file])
    case Break(u) => Set(s, u, Closing(s.handlers[u].id, s.handlers[u].got, s.handlers[u].written))
    case Rename(u, empty) => Set(s, u, Ended).(dir := Renamed(s.dir, Temp(j, u), j.names[u], empty))
    case Close(u) => Set(s, u, Ended)
  }

  predicate Run(c: Session, j: Jobs, s: State, steps: seq<Step>, t: State)
    requires c.Cap() < U32_LIMIT && Matching(j, s)
    decreases |steps|
  {
    if steps == [] then s == t
    else Enabled(j, s, steps[0]) && Run(c, j, Apply(c, j, s, steps[0]), steps[1..], t)
  }

  // ---- What is promised ------------------------------------------------------------------------------

  function FileAt(s: State, name: string): Option<seq<byte>> {
    if name in s.dir && s.dir[name].File? && s.dir[name].id < |s.disk| then Some(s.disk[s.dir[name].id]) else None
  }

  /** Upload `u` is to `name`, and its stream vouches for `data`. */
  predicate Carries(c: Session, j: Jobs, u: nat, name: string, data: seq<byte>)
    requires c.Cap() < U32_LIMIT && |j.names| == |j.streams| && u < |j.names|
  {
    j.names[u] == name && Put.Receive(c, j.streams[u], []) == Put.Publish(data)
  }

  /** The named file is as it was, or holds what the stream of an upload to it vouches for. */
  predicate FinalOk(c: Session, j: Jobs, s0: State, s: State, name: string)
    requires c.Cap() < U32_LIMIT && |j.names| == |j.streams|
  {
    || FileAt(s, name) == FileAt(s0, name)
    || (FileAt(s, name).Some? && exists u :: 0 <= u < |j.names| && Carries(c, j, u, name, FileAt(s, name).value))
  }

  /** Every name leads to a file there is, and no two to the same one. */
  predicate Tidy(s: State) {
    && (forall n :: n in s.dir && s.dir[n].File? ==> s.dir[n].id < |s.disk|)
    && forall n, m :: n in s.dir && m in s.dir && s.dir[n].File? && s.dir[n] == s.dir[m] ==> n == m
  }

  predicate Begin(j: Jobs, s: State) {
    Matching(j, s) && Tidy(s) && forall u :: 0 <= u < |s.handlers| ==> s.handlers[u] == Idle
  }

  predicate IsTemp(j: Jobs, name: string) {
    exists u :: 0 <= u < |j.names| && Temp(j, u) == name
  }

  /** Names a file can have, none of them with the staging extension. */
  predicate Proper(names: seq<string>) {
    forall u :: 0 <= u < |names| ==> names[u] != [] && !Put.EndsInTemp(names[u])
  }

  /** No other upload that has its staging file open stages where `u` does. */
  predicate Alone(j: Jobs, s: State, u: nat)
    requires Matching(j, s) && u < |s.handlers|
  {
    forall v :: 0 <= v < |s.handlers| && v != u && Open(s.handlers[v]) ==> Temp(j, v) != Temp(j, u)
  }

  /** No upload starts while one with the same staging name is under way. */
  predicate Apart(c: Session, j: Jobs, s: State, steps: seq<Step>)
    requires c.Cap() < U32_LIMIT && Matching(j, s)
    decreases |steps|
  {
    steps == [] ||
    (Enabled(j, s, steps[0]) && (steps[0].Start? ==> Alone(j, s, steps[0].u))
     && Apart(c, j, Apply(c, j, s, steps[0]), steps[1..]))
  }

  // ---- What every step keeps ----------------------------------------------------------------------------

  /** An upload under way stages in its own file, which holds what it has written. */
  predicate Owns(c: Session, j: Jobs, s: State, u: nat)
    requires c.Cap() < U32_LIMIT && Matching(j, s) && u < |s.handlers|
  {
    var at := if Temp(j, u) in s.dir then Some(s.dir[Temp(j, u)]) else None;
    match s.handlers[u]
    case Receiving(id, rest, got, written) =>
      && at == Some(File(id)) && id < |s.disk| && written <= |got| && s.disk[id] == got[..written]
      && Put.Receive(c, rest, got) == Put.Receive(c, j.streams[u], [])
    case Verified(id, got, written) =>
      && at == Some(File(id)) && id < |s.disk| && written <= |got| && s.disk[id] == got[..written]
      && Put.Receive(c, j.streams[u], []) == Put.Publish(got)
    case Closing(id, got, written) => id < |s.disk|
    case _ => true
  }

  /** Only the staging name, if any, leads to the file `u` has open. */
  predicate Private(j: Jobs, s: State, u: nat)
    requires Matching(j, s) && u < |s.handlers|
  {
    Open(s.handlers[u]) ==>
      forall n :: n in s.dir && s.dir[n] == File(s.handlers[u].id) ==> n == Temp(j, u)
  }

  predicate Distinct(j: Jobs, s: State, u: nat, v: nat)
    requires Matching(j, s) && u < |s.handlers| && v < |s.handlers|
  {
    u != v && Open(s.handlers[u]) && Open(s.handlers[v]) ==>
      s.handlers[u].id != s.handlers[v].id && Temp(j, u) != Temp(j, v)
  }

  ghost predicate Inv(c: Session, j: Jobs, s0: State, s: State)
    requires c.Cap() < U32_LIMIT
  {
    && Matching(j, s) && Tidy(s)
    && (forall u :: 0 <= u < |s.handlers| ==> Owns(c, j, s, u) && Private(j, s, u))
    && (forall u, v :: 0 <= u < |s.handlers| && 0 <= v < |s.handlers| ==> Distinct(j, s, u, v))
    && forall n :: !IsTemp(j, n) ==> FinalOk(c, j, s0, s, n)
  }

  lemma TempIsTemp(j: Jobs, u: nat)
    requires u < |j.names|
    ensures IsTemp(j, Temp(j, u))
  {
  }

  lemma TempEnds(name: string)
    requires name != []
    ensures Put.EndsInTemp(Put.TempName(name))
  {
    assert Put.Stem(name) != [];
  }

  lemma ProperIsNoTemp(j: Jobs, u: nat)
    requires Proper(j.names) && u < |j.names|
    ensures !IsTemp(j, j.names[u])
  {
    hide Put.EndsInTemp, Put.TempName;
    forall v | 0 <= v < |j.names|
      ensures Temp(j, v) != j.names[u]
    {
      TempEnds(j.names[v]);
    }
  }

  /** A file nobody else has open, written on. */
  lemma WriteKeeps(c: Session, j: Jobs, s0: State, s: State, u: nat, k: nat)
    requires c.Cap() < U32_LIMIT && Inv(c, j, s0, s) && Enabled(j, s, Write(u, k))
    ensures Inv(c, j, s0, Apply(c, j, s, Write(u, k)))
  {
    hide Put.Receive, Put.TempName;
    var t := Apply(c, j, s, Write(u, k));
    var h := s.handlers[u];
    TempIsTemp(j, u);
    forall v | 0 <= v < |s.handlers|
      ensures Owns(c, j, t, v) && Private(j, t, v)
    {
      assert Owns(c, j, s, v) && Private(j, s, v) && Distinct(j, s, u, v);
      if v == u && !h.Closing? {
        assert h.got[..h.written] + h.got[h.written..h.written + k] == h.got[..h.written + k];
        assert t.disk[h.id] == h.got[..h.written + k];
      }
    }
    forall v, w | 0 <= v < |s.handlers| && 0 <= w < |s.handlers|
      ensures Distinct(j, t, v, w)
    {
      assert Distinct(j, s, v, w);
    }
    forall n | !IsTemp(j, n)
      ensures FinalOk(c, j, s0, t, n)
    {
      assert FinalOk(c, j, s0, s, n);
      assert Private(j, s, u);
      assert FileAt(t, n) == FileAt(s, n);
    }
  }

  /** A step that only moves handler `u` on, keeping the file it has open or closing it. */
  lemma MoveKeeps(c: Session, j: Jobs, s0: State, s: State, u: nat, h: Handler, dir: map<string, Entry>)
    requires c.Cap() < U32_LIMIT && Inv(c, j, s0, s) && u < |s.handlers|
    requires Open(h) ==> Open(s.handlers[u]) && h.id == s.handlers[u].id
    requires dir == s.dir || (dir == Removed(s.dir, Temp(j, u)) && Open(s.handlers[u]))
    requires Owns(c, j, State(dir, s.disk, s.handlers[u := h]), u)
    ensures Inv(c, j, s0, State(dir, s.disk, s.handlers[u := h]))
  {
    hide Put.Receive, Put.TempName;
    var t := State(dir, s.disk, s.handlers[u := h]);
    TempIsTemp(j, u);
    forall v | 0 <= v < |s.handlers|
      ensures Owns(c, j, t, v) && Private(j, t, v)
    {
      assert Owns(c, j, s, v) && Private(j, s, v) && Distinct(j, s, u, v);
    }
    forall v, w | 0 <= v < |s.handlers| && 0 <= w < |s.handlers|
      ensures Distinct(j, t, v, w)
    {
      assert Distinct(j, s, v, w);
    }
    forall n | !IsTemp(j, n)
      ensures FinalOk(c, j, s0, t, n)
    {
      assert FinalOk(c, j, s0, s, n);
      assert FileAt(t, n) == FileAt(s, n);
    }
  }

  lemma TakeKeeps(c: Session, j: Jobs, s0: State, s: State, u: nat)
    requires c.Cap() < U32_LIMIT && Inv(c, j, s0, s) && Enabled(j, s, Take(u))
    ensures Inv(c, j, s0, Apply(c, j, s, Take(u)))
  {
    hide Put.TempName, ReadFrame, Put.DecodeData, Put.ParseEnd, Put.DigestOk;
    var t := Apply(c, j, s, Take(u));
    assert Owns(c, j, s, u);
    TakeOwns(c, j, s, u);
    MoveKeeps(c, j, s0, s, u, t.handlers[u], t.dir);
  }

  lemma TakeOwns(c: Session, j: Jobs, s: State, u: nat)
    requires c.Cap() < U32_LIMIT && Matching(j, s) && Enabled(j, s, Take(u)) && Owns(c, j, s, u)
    ensures var t := Taken(c, j, s, u);
            && Owns(c, j, t, u) && t.disk == s.disk && t.handlers == s.handlers[u := t.handlers[u]]
            && Open(t.handlers[u]) && t.handlers[u].id == s.handlers[u].id
            && (t.dir == s.dir || t.dir == Removed(s.dir, Temp(j, u)))
  {
    hide Put.TempName, ReadFrame, Put.DecodeData, Put.ParseEnd, Put.DigestOk;
  }

  lemma FolderKeeps(c: Session, j: Jobs, s0: State, s: State, name: string)
    requires c.Cap() < U32_LIMIT && Inv(c, j, s0, s) && Enabled(j, s, MakeFolder(name))
    ensures Inv(c, j, s0, Apply(c, j, s, MakeFolder(name)))
  {
    hide Put.Receive, Put.TempName;
    var t := Apply(c, j, s, MakeFolder(name));
    forall v | 0 <= v < |s.handlers|
      ensures Owns(c, j, t, v) && Private(j, t, v)
    {
      assert Owns(c, j, s, v) && Private(j, s, v);
    }
    forall v, w | 0 <= v < |s.handlers| && 0 <= w < |s.handlers|
      ensures Distinct(j, t, v, w)
    {
      assert Distinct(j, s, v, w);
    }
    forall n | !IsTemp(j, n)
      ensures FinalOk(c, j, s0, t, n)
    {
      assert FinalOk(c, j, s0, s, n);
      assert FileAt(t, n) == FileAt(s, n);
    }
  }

  lemma StartKeeps(c: Session, j: Jobs, s0: State, s: State, u: nat)
    requires c.Cap() < U32_LIMIT && Inv(c, j, s0, s) && Enabled(j, s, Start(u)) && Alone(j, s, u)
    ensures Inv(c, j, s0, Apply(c, j, s, Start(u)))
  {
    hide Put.Receive, Put.TempName;
    var t := Apply(c, j, s, Start(u));
    TempIsTemp(j, u);
    assert forall v :: 0 <= v < |s.handlers| ==> Owns(c, j, s, v) && Private(j, s, v);
    forall v | 0 <= v < |s.handlers|
      ensures Owns(c, j, t, v) && Private(j, t, v) && Distinct(j, t, u, v) && Distinct(j, t, v, u)
    {
      assert Owns(c, j, s, v) && Private(j, s, v);
    }
    forall v, w | 0 <= v < |s.handlers| && 0 <= w < |s.handlers|
      ensures Distinct(j, t, v, w)
    {
      assert Distinct(j, s, v, w);
    }
    forall n | !IsTemp(j, n)
      ensures FinalOk(c, j, s0, t, n)
    {
      assert FinalOk(c, j, s0, s, n);
      assert FileAt(t, n) == FileAt(s, n);
    }
  }

  /** The rename that goes through: the file `u` wrote gets its final name. */
  lemma PublishKeeps(c: Session, j: Jobs, s0: State, s: State, u: nat)
    requires c.Cap() < U32_LIMIT && Inv(c, j, s0, s) && Proper(j.names) && Enabled(j, s, Rename(u, false))
    ensures Temp(j, u) in s.dir
    ensures Inv(c, j, s0, State((s.dir - {Temp(j, u)})[j.names[u] := s.dir[Temp(j, u)]], s.disk,
                                s.handlers[u := Ended]))
  {
    hide Put.Receive, Put.TempName, Put.EndsInTemp, Proper, IsTemp;
    var h, temp, name := s.handlers[u], Temp(j, u), j.names[u];
    assert Owns(c, j, s, u) && Private(j, s, u);
    assert s.dir[temp] == File(h.id) && h.got[..h.written] == h.got;
    var t := State((s.dir - {temp})[name := File(h.id)], s.disk, s.handlers[u := Ended]);
    TempIsTemp(j, u);
    ProperIsNoTemp(j, u);
    forall v | 0 <= v < |s.handlers|
      ensures Owns(c, j, t, v) && Private(j, t, v)
    {
      assert Owns(c, j, s, v) && Private(j, s, v) && Distinct(j, s, u, v);
      TempIsTemp(j, v);
    }
    forall v, w | 0 <= v < |s.handlers| && 0 <= w < |s.handlers|
      ensures Distinct(j, t, v, w)
    {
      assert Distinct(j, s, v, w);
    }
    forall n | !IsTemp(j, n)
      ensures FinalOk(c, j, s0, t, n)
    {
      assert FinalOk(c, j, s0, s, n);
      if n == name {
        assert FileAt(t, n) == Some(h.got);
        assert Carries(c, j, u, n, h.got);
      } else {
        assert FileAt(t, n) == FileAt(s, n);
      }
    }
  }

  lemma RenameKeeps(c: Session, j: Jobs, s0: State, s: State, u: nat, empty: bool)
    requires c.Cap() < U32_LIMIT && Inv(c, j, s0, s) && Proper(j.names) && Enabled(j, s, Rename(u, empty))
    ensures Inv(c, j, s0, Apply(c, j, s, Rename(u, empty)))
  {
    hide Put.TempName, Put.EndsInTemp, Proper, Owns, Private, Distinct, FinalOk, Tidy, IsTemp;
    PublishKeeps(c, j, s0, s, u);
    if Renamed(s.dir, Temp(j, u), j.names[u], empty) == s.dir {
      EndKeeps(c, j, s0, s, u);
    }
  }

  lemma EndKeeps(c: Session, j: Jobs, s0: State, s: State, u: nat)
    requires c.Cap() < U32_LIMIT && Inv(c, j, s0, s) && u < |s.handlers|
    ensures Inv(c, j, s0, Set(s, u, Ended))
  {
    MoveKeeps(c, j, s0, s, u, Ended, s.dir);
  }

  lemma StepKeeps(c: Session, j: Jobs, s0: State, s: State, st: Step)
    requires c.Cap() < U32_LIMIT && Inv(c, j, s0, s) && Proper(j.names) && Enabled(j, s, st)
    requires st.Start? ==> Alone(j, s, st.u)
    ensures Inv(c, j, s0, Apply(c, j, s, st))
  {
    match st
    case MakeFolder(name) => FolderKeeps(c, j, s0, s, name);
    case Start(u) => StartKeeps(c, j, s0, s, u);
    case Take(u) => TakeKeeps(c, j, s0, s, u);
    case Write(u, k) => WriteKeeps(c, j, s0, s, u, k);
    case Break(u) =>
      assert Owns(c, j, s, u);
      MoveKeeps(c, j, s0, s, u, Closing(s.handlers[u].id, s.handlers[u].got, s.handlers[u].written), s.dir);
    case Rename(u, empty) => RenameKeeps(c, j, s0, s, u, empty);
    case Close(u) => MoveKeeps(c, j, s0, s, u, Ended, s.dir);
  }

  lemma {:induction false} RunKeeps(c: Session, j: Jobs, s0: State, s: State, steps: seq<Step>, t: State)
    requires c.Cap() < U32_LIMIT && Inv(c, j, s0, s) && Proper(j.names)
    requires Run(c, j, s, steps, t) && Apart(c, j, s, steps)
    ensures Inv(c, j, s0, t)
    decreases |steps|
  {
    hide Owns, Private, Distinct, FinalOk, Tidy, Proper;
    if steps != [] {
      StepKeeps(c, j, s0, s, steps[0]);
      RunKeeps(c, j, s0, Apply(c, j, s, steps[0]), steps[1..], t);
    }
  }

  lemma BeginInv(c: Session, j: Jobs, s: State)
    requires c.Cap() < U32_LIMIT && Begin(j, s)
    ensures Inv(c, j, s, s)
  {
  }

  /** Any number of uploads in any interleaving, folders appearing and connections breaking
      off included: as long as none starts while another with its staging name is under
      way, every final path is untouched or holds what the stream of an upload to it
      vouches for; and no name but a staging name changes otherwise. */
  lemma {:induction false} UploadsAreSafe(c: Session, j: Jobs, s0: State, steps: seq<Step>, s: State, name: string)
    requires c.Cap() < U32_LIMIT && Proper(j.names) && Begin(j, s0)
    requires Run(c, j, s0, steps, s) && Apart(c, j, s0, steps) && !IsTemp(j, name)
    ensures FileAt(s, name) == FileAt(s0, name)
         || (FileAt(s, name).Some? && exists u, n ::
               0 <= u < |j.names| && j.names[u] == name
               && Put.Vouched(c, j.streams[u], n, [], FileAt(s, name).value))
  {
    hide Put.Receive, Put.Vouched;
    BeginInv(c, j, s0);
    RunKeeps(c, j, s0, s0, steps, s);
    assert FinalOk(c, j, s0, s, name);
    if FileAt(s, name) != FileAt(s0, name) {
      var data := FileAt(s, name).value;
      var u :| 0 <= u < |j.names| && Carries(c, j, u, name, data);
      Put.ReceiveVouched(c, j.streams[u], [], data);
      var n :| Put.Vouched(c, j.streams[u], n, [], data);
      assert j.names[u] == name;
    }
  }

  // ---- Exactly when --------------------------------------------------------------------------------------

  /** No two uploads share a staging name. */
  predicate Separate(names: seq<string>) {
    forall u, v :: 0 <= u < v < |names| ==> Put.TempName(names[u]) != Put.TempName(names[v])
  }

  lemma {:induction false} SeparateIsApart(c: Session, j: Jobs, s: State, steps: seq<Step>, t: State)
    requires c.Cap() < U32_LIMIT && Matching(j, s) && Separate(j.names) && Run(c, j, s, steps, t)
    ensures Apart(c, j, s, steps)
    decreases |steps|
  {
    hide Put.TempName, Apply;
    if steps != [] {
      SeparateIsApart(c, j, Apply(c, j, s, steps[0]), steps[1..], t);
    }
  }

  /** In every run of these uploads, every final path comes out right. */
  ghost predicate AlwaysSafe(c: Session, names: seq<string>)
    requires c.Cap() < U32_LIMIT
  {
    forall streams, s0, steps, s, u ::
      (|streams| == |names| && 0 <= u < |names| && Begin(Jobs(names, streams), s0)
       && Run(c, Jobs(names, streams), s0, steps, s))
      ==> FinalOk(c, Jobs(names, streams), s0, s, names[u])
  }

  lemma SeparateIsSafe(c: Session, names: seq<string>)
    requires c.Cap() < U32_LIMIT && Proper(names) && Separate(names)
    ensures AlwaysSafe(c, names)
  {
    hide Put.Receive, Put.TempName, Put.EndsInTemp, Inv, FinalOk, Run;
    forall streams, s0, steps, s, u | |streams| == |names| && 0 <= u < |names| && Begin(Jobs(names, streams), s0)
                                      && Run(c, Jobs(names, streams), s0, steps, s)
      ensures FinalOk(c, Jobs(names, streams), s0, s, names[u])
    {
      RunIsSafe(c, Jobs(names, streams), s0, steps, s, u);
    }
  }

  lemma {:induction false} RunIsSafe(c: Session, j: Jobs, s0: State, steps: seq<Step>, s: State, u: nat)
    requires c.Cap() < U32_LIMIT && Proper(j.names) && Separate(j.names) && Begin(j, s0) && u < |j.names|
    requires Run(c, j, s0, steps, s)
    ensures FinalOk(c, j, s0, s, j.names[u])
  {
    hide Put.Receive, Put.TempName, Put.EndsInTemp, FinalOk;
    BeginInv(c, j, s0);
    SeparateIsApart(c, j, s0, steps, s);
    RunKeeps(c, j, s0, s0, steps, s);
    ProperIsNoTemp(j, u);
  }

  // ---- The bad runs ----------------------------------------------------------------------------------------

  /** A data frame of one byte, and the frame that ends an upload of one byte. */
  function OneByte(b: byte): Frame {
    Frame(Put.FRAME_DATA, 0, [b])
  }

  function EndOfOne(): Frame {
    Frame(Put.FRAME_DATA_END, 0, Put.EndBytes(Put.DataEnd(1, 0, [])))
  }

  function Whole(): seq<byte> {
    FrameBytes(OneByte(1)) + FrameBytes(EndOfOne())
  }

  lemma DataRead(c: Session, b: byte, rest: seq<byte>)
    requires c.Cap() < U32_LIMIT
    ensures ReadFrame(FrameBytes(OneByte(b)) + rest, c.Cap()) == Ok(Wire.At(OneByte(b), |FrameBytes(OneByte(b))|))
    ensures (FrameBytes(OneByte(b)) + rest)[|FrameBytes(OneByte(b))|..] == rest
    ensures Put.DecodeData(c, OneByte(b)) == Some([b])
  {
    hide ReadFrame, FrameBytes;
    ReadOfWritten(OneByte(b), rest, c.Cap());
  }

  lemma EndRead(c: Session)
    requires c.Cap() < U32_LIMIT
    ensures ReadFrame(FrameBytes(EndOfOne()), c.Cap()) == Ok(Wire.At(EndOfOne(), |FrameBytes(EndOfOne())|))
    ensures Put.ParseEnd(EndOfOne().payload) == Some(Put.DataEnd(1, 0, []))
  {
    hide ReadFrame, FrameBytes, LE, Put.ParseEnd;
    ReadOfWritten(EndOfOne(), [], c.Cap());
    assert FrameBytes(EndOfOne()) + [] == FrameBytes(EndOfOne());
    Put.EndRoundTrip(Put.DataEnd(1, 0, []));
  }

  lemma {:induction false} StreamsReceived(c: Session)
    requires c.Cap() < U32_LIMIT
    ensures Put.Receive(c, Whole(), []) == Put.Publish([1])
    ensures Put.Receive(c, FrameBytes(OneByte(2)), []) == Put.LeaveTemp([2])
    ensures Put.Receive(c, [], []) == Put.LeaveTemp([])
  {
    hide ReadFrame, FrameBytes, OneByte, EndOfOne, Put.DecodeData, Put.ParseEnd;
    DataRead(c, 1, FrameBytes(EndOfOne()));
    DataRead(c, 2, []);
    EndRead(c);
    Put.NothingToRead(c);
    assert FrameBytes(OneByte(2)) + [] == FrameBytes(OneByte(2));
    assert [] + [1] == [1] && [] + [2] == [2];
    EndOfOneIs();
  }

  lemma EndOfOneIs()
    ensures EndOfOne().frameType == Put.FRAME_DATA_END
    ensures forall b: byte :: OneByte(b).frameType == Put.FRAME_DATA
  {
  }

  lemma {:induction false} RunCons(c: Session, j: Jobs, s: State, st: Step, next: State, steps: seq<Step>, t: State)
    requires c.Cap() < U32_LIMIT && Matching(j, s) && Matching(j, next)
    requires Enabled(j, s, st) && Apply(c, j, s, st) == next && Run(c, j, next, steps, t)
    ensures Run(c, j, s, [st] + steps, t)
  {
    hide Enabled, Apply;
    assert ([st] + steps)[1..] == steps;
  }

  /** Uploads `i` and `k` of the named ones: one whole upload of a byte, and one of another
      byte that breaks off. The others send nothing. */
  function TwoStreams(n: nat, i: nat, k: nat): (streams: seq<seq<byte>>)
    ensures |streams| == n
  {
    seq(n, u => if u == i then Whole() else if u == k then FrameBytes(OneByte(2)) else [])
  }

  /** A directory of one file at most, with handlers `i` and `k` under way. */
  function Two(n: nat, i: nat, k: nat, at: string, file: seq<byte>, hi: Handler, hk: Handler): State
    requires i < n && k < n
  {
    State(map[at := File(0)], [file], seq(n, _ => Idle)[i := hi][k := hk])
  }

  lemma BothStart(c: Session, names: seq<string>, i: nat, k: nat)
    requires c.Cap() < U32_LIMIT && i < |names| && k < |names| && i != k
    requires Put.TempName(names[i]) == Put.TempName(names[k])
    ensures var n, temp, j := |names|, Put.TempName(names[i]), Jobs(names, TwoStreams(|names|, i, k));
            var s0 := State(map[], [], seq(n, _ => Idle));
            var a := Receiving(0, Whole(), [], 0);
            && Enabled(j, s0, Start(i)) && Apply(c, j, s0, Start(i)) == Two(n, i, k, temp, [], a, Idle)
            && Enabled(j, Two(n, i, k, temp, [], a, Idle), Start(k))
            && Apply(c, j, Two(n, i, k, temp, [], a, Idle), Start(k))
               == Two(n, i, k, temp, [], a, Receiving(0, FrameBytes(OneByte(2)), [], 0))
  {
    hide Put.TempName, Whole, FrameBytes;
    var n := |names|;
    var idle := seq(n, _ => Idle);
    var a, b := Receiving(0, Whole(), [], 0), Receiving(0, FrameBytes(OneByte(2)), [], 0);
    assert idle[i := a] == idle[i := a][k := Idle];
    assert idle[i := a][k := Idle][k := b] == idle[i := a][k := b];
  }

  /** The first writes its byte and has it verified; the second writes over it. */
  lemma BothWrite(c: Session, names: seq<string>, i: nat, k: nat)
    requires c.Cap() < U32_LIMIT && i < |names| && k < |names| && i != k
    requires Put.TempName(names[i]) == Put.TempName(names[k])
    ensures var n, temp, j := |names|, Put.TempName(names[i]), Jobs(names, TwoStreams(|names|, i, k));
            var d, e := FrameBytes(OneByte(2)), FrameBytes(EndOfOne());
            var b := Receiving(0, d, [], 0);
            var s2, s3 := Two(n, i, k, temp, [], Receiving(0, Whole(), [], 0), b),
                          Two(n, i, k, temp, [], Receiving(0, e, [1], 0), b);
            var s4, s5 := Two(n, i, k, temp, [1], Receiving(0, e, [1], 1), b),
                          Two(n, i, k, temp, [1], Verified(0, [1], 1), b);
            && Enabled(j, s2, Take(i)) && Apply(c, j, s2, Take(i)) == s3
            && Enabled(j, s3, Write(i, 1)) && Apply(c, j, s3, Write(i, 1)) == s4
            && Enabled(j, s4, Take(i)) && Apply(c, j, s4, Take(i)) == s5
  {
    hide Put.TempName, FrameBytes, ReadFrame, Put.DecodeData, Put.ParseEnd, OneByte, EndOfOne;
    DataRead(c, 1, FrameBytes(EndOfOne()));
    EndRead(c);
    EndOfOneIs();
    var n := |names|;
    var d, e := FrameBytes(OneByte(2)), FrameBytes(EndOfOne());
    var b := Receiving(0, d, [], 0);
    Reset(n, i, k, Receiving(0, Whole(), [], 0), b, Receiving(0, e, [1], 0));
    Reset(n, i, k, Receiving(0, e, [1], 0), b, Receiving(0, e, [1], 1));
    Reset(n, i, k, Receiving(0, e, [1], 1), b, Verified(0, [1], 1));
    assert [] + [1] == [1];
    assert Download.WriteAt([], 0, [1][0..1]) == [1];
  }

  lemma OverWritten(c: Session, names: seq<string>, i: nat, k: nat)
    requires c.Cap() < U32_LIMIT && i < |names| && k < |names| && i != k
    requires Put.TempName(names[i]) == Put.TempName(names[k]) && names[i] != Put.TempName(names[i])
    ensures var n, temp, j := |names|, Put.TempName(names[i]), Jobs(names, TwoStreams(|names|, i, k));
            var a := Verified(0, [1], 1);
            var s5, s6 := Two(n, i, k, temp, [1], a, Receiving(0, FrameBytes(OneByte(2)), [], 0)),
                          Two(n, i, k, temp, [1], a, Receiving(0, [], [2], 0));
            var s7, s8 := Two(n, i, k, temp, [2], a, Receiving(0, [], [2], 1)),
                          Two(n, i, k, names[i], [2], Ended, Receiving(0, [], [2], 1));
            && Enabled(j, s5, Take(k)) && Apply(c, j, s5, Take(k)) == s6
            && Enabled(j, s6, Write(k, 1)) && Apply(c, j, s6, Write(k, 1)) == s7
            && Enabled(j, s7, Rename(i, false)) && Apply(c, j, s7, Rename(i, false)) == s8
  {
    hide Put.TempName, FrameBytes, ReadFrame, Put.DecodeData, Put.ParseEnd, OneByte, EndOfOne;
    DataRead(c, 2, []);
    assert FrameBytes(OneByte(2)) + [] == FrameBytes(OneByte(2));
    EndOfOneIs();
    var n := |names|;
    var a := Verified(0, [1], 1);
    var idle := seq(n, _ => Idle);
    Reset(n, i, k, a, Receiving(0, [], [2], 1), Ended);
    assert idle[i := a][k := Receiving(0, FrameBytes(OneByte(2)), [], 0)][k := Receiving(0, [], [2], 0)]
        == idle[i := a][k := Receiving(0, [], [2], 0)];
    assert idle[i := a][k := Receiving(0, [], [2], 0)][k := Receiving(0, [], [2], 1)]
        == idle[i := a][k := Receiving(0, [], [2], 1)];
    assert [] + [2] == [2];
    assert Download.WriteAt([1], 0, [2][0..1]) == [2];
    var temp := Put.TempName(names[i]);
    assert (map[temp := File(0)] - {temp})[names[i] := File(0)] == map[names[i] := File(0)];
  }

  lemma Reset(n: nat, i: nat, k: nat, a: Handler, b: Handler, a': Handler)
    requires i < n && k < n && i != k
    ensures seq(n, _ => Idle)[i := a][k := b][i := a'] == seq(n, _ => Idle)[i := a'][k := b]
  {
  }

  /** Two uploads that share a staging name: the first is verified, the second writes over
      its file, and the first is renamed into place with bytes no stream vouches for. */
  lemma SharedTempBreaks(c: Session, names: seq<string>, i: nat, k: nat)
    requires c.Cap() < U32_LIMIT && i < |names| && k < |names| && i != k
    requires Put.TempName(names[i]) == Put.TempName(names[k]) && names[i] != Put.TempName(names[i])
    ensures !AlwaysSafe(c, names)
  {
    hide Put.TempName, Put.Receive, Enabled, Apply, Whole, FrameBytes, AlwaysSafe, TwoStreams;
    var n, temp, j := |names|, Put.TempName(names[i]), Jobs(names, TwoStreams(|names|, i, k));
    var s0 := State(map[], [], seq(n, _ => Idle));
    BothStart(c, names, i, k);
    BothWrite(c, names, i, k);
    OverWritten(c, names, i, k);
    var d, e := FrameBytes(OneByte(2)), FrameBytes(EndOfOne());
    var a, b, v, w := Receiving(0, Whole(), [], 0), Receiving(0, d, [], 0), Verified(0, [1], 1),
                      Receiving(0, [], [2], 1);
    var t := Two(n, i, k, names[i], [2], Ended, w);
    assert Run(c, j, t, [], t);
    RunCons(c, j, Two(n, i, k, temp, [2], v, w), Rename(i, false), t, [], t);
    var s6 := Two(n, i, k, temp, [1], v, Receiving(0, [], [2], 0));
    RunCons(c, j, s6, Write(k, 1), Two(n, i, k, temp, [2], v, w), [Rename(i, false)] + [], t);
    var r6 := [Write(k, 1)] + ([Rename(i, false)] + []);
    RunCons(c, j, Two(n, i, k, temp, [1], v, b), Take(k), s6, r6, t);
    var r5 := [Take(k)] + r6;
    var s4 := Two(n, i, k, temp, [1], Receiving(0, e, [1], 1), b);
    RunCons(c, j, s4, Take(i), Two(n, i, k, temp, [1], v, b), r5, t);
    var r4 := [Take(i)] + r5;
    var s3 := Two(n, i, k, temp, [], Receiving(0, e, [1], 0), b);
    RunCons(c, j, s3, Write(i, 1), s4, r4, t);
    var r3 := [Write(i, 1)] + r4;
    RunCons(c, j, Two(n, i, k, temp, [], a, b), Take(i), s3, r3, t);
    var r2 := [Take(i)] + r3;
    RunCons(c, j, Two(n, i, k, temp, [], a, Idle), Start(k), Two(n, i, k, temp, [], a, b), r2, t);
    var r1 := [Start(k)] + r2;
    RunCons(c, j, s0, Start(i), Two(n, i, k, temp, [], a, Idle), r1, t);
    NobodyVouches(c, names, i, k);
    UnsafeRun(c, names, TwoStreams(n, i, k), s0, [Start(i)] + r1, t, i);
  }

  lemma NobodyVouches(c: Session, names: seq<string>, i: nat, k: nat)
    requires c.Cap() < U32_LIMIT && i < |names| && k < |names| && i != k
    ensures var j := Jobs(names, TwoStreams(|names|, i, k));
            var t := Two(|names|, i, k, names[i], [2], Ended, Receiving(0, [], [2], 1));
            !FinalOk(c, j, State(map[], [], seq(|names|, _ => Idle)), t, names[i])
  {
    hide Put.Receive, Whole, FrameBytes;
    StreamsReceived(c);
  }

  lemma {:induction false} UnsafeRun(c: Session, names: seq<string>, streams: seq<seq<byte>>, s0: State,
                                     steps: seq<Step>, s: State, u: nat)
    requires c.Cap() < U32_LIMIT && |streams| == |names| && u < |names| && Begin(Jobs(names, streams), s0)
    requires Run(c, Jobs(names, streams), s0, steps, s)
    requires !FinalOk(c, Jobs(names, streams), s0, s, names[u])
    ensures !AlwaysSafe(c, names)
  {
    hide Run, FinalOk;
  }

  /** An upload to a name with the staging extension truncates the file it is to replace. */
  lemma TempNameBreaks(c: Session, names: seq<string>, i: nat)
    requires c.Cap() < U32_LIMIT && i < |names| && Put.TempName(names[i]) == names[i]
    ensures !AlwaysSafe(c, names)
  {
    hide Put.TempName, Put.Receive, AlwaysSafe;
    var n := |names|;
    var streams: seq<seq<byte>> := seq(n, _ => []);
    var j := Jobs(names, streams);
    var s0 := State(map[names[i] := File(0)], [[1]], seq(n, _ => Idle));
    var s := State(s0.dir, [[]], s0.handlers[i := Receiving(0, [], [], 0)]);
    assert Apply(c, j, s0, Start(i)) == s;
    assert Run(c, j, s, [], s);
    RunCons(c, j, s0, Start(i), s, [], s);
    StreamsReceived(c);
    UnsafeRun(c, names, streams, s0, [Start(i)] + [], s, i);
  }

  /** For uploads to any names: every final path comes out right in every interleaving, for
      all streams and whatever the directory held, exactly when no two uploads share a
      staging name and none has the staging extension itself. */
  lemma SafeExactly(c: Session, names: seq<string>)
    requires c.Cap() < U32_LIMIT && forall u :: 0 <= u < |names| ==> names[u] != []
    ensures AlwaysSafe(c, names) <==> Proper(names) && Separate(names)
  {
    hide AlwaysSafe, Put.EndsInTemp, Put.TempName;
    if Proper(names) && Separate(names) {
      SeparateIsSafe(c, names);
    } else if !Proper(names) {
      var u :| 0 <= u < |names| && Put.EndsInTemp(names[u]);
      Put.TempIsSelf(names[u]);
      TempNameBreaks(c, names, u);
    } else {
      var u, v :| 0 <= u < v < |names| && Put.TempName(names[u]) == Put.TempName(names[v]);
      Put.TempIsSelf(names[u]);
      assert !Put.EndsInTemp(names[u]);
      SharedTempBreaks(c, names, u, v);
    }
  }
}
