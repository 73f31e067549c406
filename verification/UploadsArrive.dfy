/** What becomes of a good upload among others: it gets as far as its rename, the rename
    publishes its own data, and they stay until the next rename to that path. */
module UploadsArrive {
  import opened Bytes
  import opened Frames
  import Put
  import opened Uploads

  /** The stream of `u` vouches for `data`. */
  predicate Vouches(c: Session, j: Jobs, u: nat, data: seq<byte>)
    requires c.Cap() < U32_LIMIT && u < |j.streams|
  {
    Put.Receive(c, j.streams[u], []) == Put.Publish(data)
  }

  predicate FolderAt(s: State, name: string) {
    name in s.dir && s.dir[name].Folder?
  }

  // ---- Up to the rename -----------------------------------------------------------------------

  /** Neither broken off nor given up. */
  predicate UnderWay(h: Handler) {
    h.Receiving? || h.Verified?
  }

  /** The server does not give up an upload that is vouched for. */
  lemma TakeGoesOn(c: Session, j: Jobs, s: State, u: nat, data: seq<byte>)
    requires c.Cap() < U32_LIMIT && Matching(j, s) && Enabled(j, s, Take(u)) && Owns(c, j, s, u)
    requires Vouches(c, j, u, data)
    ensures var h, h' := s.handlers[u], Apply(c, j, s, Take(u)).handlers[u];
            h'.Verified? || (h'.Receiving? && |h'.rest| < |h.rest|)
  {
    hide Put.TempName, Put.DecodeData, Put.ParseEnd, Put.DigestOk, ParseHeader;
  }

  /** From any state, the steps of `u` alone lead to its rename. */
  lemma {:induction false} ReachesRename(c: Session, j: Jobs, s0: State, s: State, u: nat, data: seq<byte>)
    returns (steps: seq<Step>, t: State)
    requires c.Cap() < U32_LIMIT && Inv(c, j, s0, s) && Proper(j.names) && u < |s.handlers|
    requires UnderWay(s.handlers[u]) && Vouches(c, j, u, data)
    ensures Run(c, j, s, steps, t) && Apart(c, j, s, steps) && Inv(c, j, s0, t)
    ensures forall i :: 0 <= i < |steps| ==> steps[i].Take? || steps[i].Write?
    ensures forall empty :: Enabled(j, t, Rename(u, empty))
    decreases if s.handlers[u].Receiving? then |s.handlers[u].rest| + 1 else 0,
              |s.handlers[u].got| - s.handlers[u].written
  {
    hide Put.TempName, Put.Receive, Put.EndsInTemp;
    var h := s.handlers[u];
    assert Owns(c, j, s, u);
    if h.Verified? && h.written == |h.got| {
      steps, t := [], s;
    } else {
      var st := if h.Receiving? then Take(u) else Write(u, |h.got| - h.written);
      if h.Receiving? {
        TakeGoesOn(c, j, s, u, data);
      }
      StepKeeps(c, j, s0, s, st);
      var rest;
      rest, t := ReachesRename(c, j, s0, Apply(c, j, s, st), u, data);
      steps := [st] + rest;
    }
  }

  /** Frame by frame the server ends an upload as its whole stream says, whatever the others
      do: it goes on while nothing is decided, verifies exactly what is to be published, and
      gives up with the staging file removed, or left with all that was received on its way
      into it. */
  lemma {:induction false} TakeEnds(c: Session, j: Jobs, s0: State, s: State, u: nat)
    requires c.Cap() < U32_LIMIT && Inv(c, j, s0, s) && Enabled(j, s, Take(u))
    ensures var verdict, t, temp := Put.Receive(c, j.streams[u], []), Apply(c, j, s, Take(u)), Temp(j, u);
            var h := t.handlers[u];
            && Open(h)
            && (h.Receiving? ==> Put.Receive(c, h.rest, h.got) == verdict)
            && (h.Verified? ==> verdict == Put.Publish(h.got))
            && (h.Closing? ==> (verdict == Put.RemoveTemp && temp !in t.dir)
                               || (verdict == Put.LeaveTemp(h.got) && temp in t.dir && t.dir[temp] == File(h.id)))
  {
    hide Put.TempName, Put.DecodeData, Put.ParseEnd, Put.DigestOk, ReadFrame, FinalOk, IsTemp;
    assert Owns(c, j, s, u);
  }

  // ---- The rename and after -----------------------------------------------------------------------

  /** The rename publishes the data the upload's own stream vouches for, or a folder is in
      the way. */
  lemma RenamePublishes(c: Session, j: Jobs, s0: State, s: State, u: nat, empty: bool) returns (data: seq<byte>)
    requires c.Cap() < U32_LIMIT && Inv(c, j, s0, s) && Proper(j.names) && Enabled(j, s, Rename(u, empty))
    ensures Vouches(c, j, u, data)
    ensures FileAt(Apply(c, j, s, Rename(u, empty)), j.names[u])
         == if FolderAt(s, j.names[u]) then None else Some(data)
  {
    hide Put.TempName, Put.EndsInTemp, Put.Receive, IsTemp;
    var h := s.handlers[u];
    data := h.got;
    assert Owns(c, j, s, u);
    assert h.got[..h.written] == h.got;
    TempIsTemp(j, u);
    ProperIsNoTemp(j, u);
  }

  /** Any other step leaves a final path alone. */
  lemma StepLeaves(c: Session, j: Jobs, s0: State, s: State, st: Step, name: string)
    requires c.Cap() < U32_LIMIT && Inv(c, j, s0, s) && Proper(j.names) && Enabled(j, s, st)
    requires !IsTemp(j, name) && !(st.Rename? && j.names[st.u] == name)
    ensures FileAt(Apply(c, j, s, st), name) == FileAt(s, name)
  {
    hide Put.TempName, Put.EndsInTemp, Put.Receive, IsTemp, Proper, FinalOk, ReadFrame, Put.DecodeData;
    if !st.MakeFolder? {
      assert Owns(c, j, s, st.u) && Private(j, s, st.u);
      TempIsTemp(j, st.u);
    }
  }

  predicate NoRenameTo(j: Jobs, steps: seq<Step>, name: string) {
    forall i :: 0 <= i < |steps| && steps[i].Rename? && steps[i].u < |j.names| ==> j.names[steps[i].u] != name
  }

  lemma {:induction false} RunLeaves(c: Session, j: Jobs, s0: State, s: State, steps: seq<Step>, t: State, name: string)
    requires c.Cap() < U32_LIMIT && Inv(c, j, s0, s) && Proper(j.names)
    requires Run(c, j, s, steps, t) && Apart(c, j, s, steps) && !IsTemp(j, name) && NoRenameTo(j, steps, name)
    ensures FileAt(t, name) == FileAt(s, name)
    decreases |steps|
  {
    hide Owns, Private, Distinct, FinalOk, Tidy, Proper, IsTemp, FileAt;
    if steps != [] {
      assert steps[0] == steps[0];
      StepLeaves(c, j, s0, s, steps[0], name);
      StepKeeps(c, j, s0, s, steps[0]);
      RunLeaves(c, j, s0, Apply(c, j, s, steps[0]), steps[1..], t, name);
    }
  }

  /** In every interleaving that keeps uploads apart, an upload that gets to its rename has
      a stream that vouches for its data. Exactly if no folder has the final path then, the
      path holds that upload's own data, at once and until the next rename to it. */
  lemma {:induction false} OwnDataStays(c: Session, j: Jobs, s0: State, steps: seq<Step>, s: State, u: nat, empty: bool,
                                        more: seq<Step>, t: State)
    returns (data: seq<byte>)
    requires c.Cap() < U32_LIMIT && Proper(j.names) && Begin(j, s0)
    requires Run(c, j, s0, steps, s) && Apart(c, j, s0, steps) && Matching(j, s) && Enabled(j, s, Rename(u, empty))
    requires var s' := Apply(c, j, s, Rename(u, empty)); Run(c, j, s', more, t) && Apart(c, j, s', more)
    requires u < |j.names| && NoRenameTo(j, more, j.names[u])
    ensures Vouches(c, j, u, data)
    ensures FileAt(t, j.names[u]) == if FolderAt(s, j.names[u]) then None else Some(data)
  {
    hide Inv, Proper, Begin, Vouches, FileAt, Enabled, NoRenameTo, IsTemp;
    BeginInv(c, j, s0);
    RunKeeps(c, j, s0, s0, steps, s);
    data := RenamePublishes(c, j, s0, s, u, empty);
    StepKeeps(c, j, s0, s, Rename(u, empty));
    ProperIsNoTemp(j, u);
    RunLeaves(c, j, s0, Apply(c, j, s, Rename(u, empty)), more, t, j.names[u]);
  }

  /** And an upload that is vouched for gets there: from every state such an interleaving
      can come to, unless its connection has broken off, its own steps lead to its rename,
      after which its data are at the final path if no folder is. */
  lemma {:induction false} VouchedArrives(c: Session, j: Jobs, s0: State, steps: seq<Step>, s: State, u: nat,
                                          data: seq<byte>)
    returns (more: seq<Step>, t: State)
    requires c.Cap() < U32_LIMIT && Proper(j.names) && Begin(j, s0)
    requires Run(c, j, s0, steps, s) && Apart(c, j, s0, steps) && Matching(j, s)
    requires u < |s.handlers| && UnderWay(s.handlers[u]) && u < |j.streams| && Vouches(c, j, u, data)
    ensures Run(c, j, s, more, t) && Apart(c, j, s, more) && Matching(j, t) && Enabled(j, t, Rename(u, false))
    ensures forall i :: 0 <= i < |more| ==> more[i].Take? || more[i].Write?
    ensures FileAt(Apply(c, j, t, Rename(u, false)), j.names[u]) == if FolderAt(t, j.names[u]) then None else Some(data)
  {
    hide Proper, Begin, FileAt, Put.Receive;
    BeginInv(c, j, s0);
    RunKeeps(c, j, s0, s0, steps, s);
    more, t := ReachesRename(c, j, s0, s, u, data);
    var own := RenamePublishes(c, j, s0, t, u, false);
  }
}
