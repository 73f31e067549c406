/** The concurrent copies of a sync between two protocols: each downloads its file to a
    temporary one, uploads that, and removes it whatever happens. The temporary names are
    made of the process and the clock, so copies may come to share one. A run is any
    interleaving of the steps below. */
module Copies {
  import opened Bytes
  import Download

  /** `id` is the file a handle is open on, whatever becomes of its name. */
  datatype Copy =
    | Idle
    | Fetching(id: nat, written: nat)
    | Fetched
    | Sending(id: nat, sent: seq<byte>)
    | Ended(ok: bool)

  /** `dir` is the directory of temporary files, `disk` the files by identity, and `dests`
      what the destination has for each copy. */
  datatype State =
    State(dir: map<string, nat>, disk: seq<seq<byte>>, copies: seq<Copy>, dests: seq<Option<seq<byte>>>)

  /** The temporary name and the source of each copy. */
  datatype Jobs = Jobs(names: seq<string>, sources: seq<seq<byte>>)

  datatype Step =
    /** An attempt of the download: creates the temporary file, or truncates it. */
    | Begin(u: nat)
    | Write(u: nat, k: nat)
    /** The download is done, everything written. */
    | Arrive(u: nat)
    /** An attempt of the upload: opens the temporary file by name, if it is there. */
    | Open(u: nat)
    | Send(u: nat, k: nat)
    /** The end of the file as the upload sees it. */
    | Finish(u: nat)
    | GiveUp(u: nat)

  predicate Matching(j: Jobs, s: State) {
    |j.names| == |j.sources| == |s.copies| == |s.dests|
  }

  predicate Enabled(j: Jobs, s: State, st: Step)
    requires Matching(j, s)
  {
    && st.u < |s.copies|
    && var c := s.copies[st.u];
       match st
       case Begin(_) => c.Idle? || c.Fetching?
       case Write(u, k) => c.Fetching? && c.id < |s.disk| && 0 < k && c.written + k <= |j.sources[u]|
       case Arrive(u) => c.Fetching? && c.written == |j.sources[u]|
       case Open(_) => c.Fetched? || c.Sending?
       case Send(_, k) => c.Sending? && c.id < |s.disk| && 0 < k && |c.sent| + k <= |s.disk[c.id]|
       case Finish(_) => c.Sending? && c.id < |s.disk| && |c.sent| >= |s.disk[c.id]|
       case GiveUp(_) => !c.Idle? && !c.Ended?
  }

  function Set(s: State, u: nat, c: Copy): State
    requires u < |s.copies|
  {
    s.(copies := s.copies[u := c])
  }

  function Began(j: Jobs, s: State, u: nat): State
    requires Matching(j, s) && u < |s.copies|
  {
    var name := j.names[u];
    if name in s.dir then
      var id := s.dir[name];
      Set(s, u, Fetching(id, 0)).(disk := if id < |s.disk| then s.disk[id := []] else s.disk)
    else
      Set(s, u, Fetching(|s.disk|, 0)).(dir := s.dir[name := |s.disk|], disk := s.disk + [[]])
  }

  function Apply(j: Jobs, s: State, st: Step): (t: State)
    requires Matching(j, s) && Enabled(j, s, st)
    ensures Matching(j, t)
  {
    var u := st.u;
    var c, name := s.copies[u], j.names[u];
    match st
    case Begin(_) => Began(j, s, u)
    case Write(_, k) =>
      var file := Download.WriteAt(s.disk[c.id], c.written, j.sources[u][c.written..c.written + k]);
      Set(s, u, Fetching(c.id, c.written + k)).(disk := s.disk[c.id := file])
    case Arrive(_) => Set(s, u, Fetched)
    case Open(_) =>
      if name in s.dir then Set(s, u, Sending(s.dir[name], [])).(dests := s.dests[u := Some([])]) else s
    case Send(_, k) =>
      var sent := c.sent + s.disk[c.id][|c.sent|..|c.sent| + k];
      Set(s, u, Sending(c.id, sent)).(dests := s.dests[u := Some(sent)])
    case Finish(_) => Set(s, u, Ended(true)).(dir := s.dir - {name})
    case GiveUp(_) => Set(s, u, Ended(false)).(dir := s.dir - {name})
  }

  predicate Run(j: Jobs, s: State, steps: seq<Step>, t: State)
    requires Matching(j, s)
    decreases |steps|
  {
    if steps == [] then s == t
    else Enabled(j, s, steps[0]) && Run(j, Apply(j, s, steps[0]), steps[1..], t)
  }

  // ---- What is promised ------------------------------------------------------------------------

  /** Every name leads to a file there is, and no two to the same one. */
  predicate Tidy(s: State) {
    && (forall n :: n in s.dir ==> s.dir[n] < |s.disk|)
    && forall n, m :: n in s.dir && m in s.dir && s.dir[n] == s.dir[m] ==> n == m
  }

  /** Before the copies, whatever temporary files were left there. */
  predicate Start(j: Jobs, s: State) {
    Matching(j, s) && Tidy(s) && forall u :: 0 <= u < |s.copies| ==> s.copies[u] == Idle
  }

  predicate Active(c: Copy) {
    c.Fetching? || c.Fetched? || c.Sending?
  }

  /** No other copy under way has the temporary name of `u`. */
  predicate Alone(j: Jobs, s: State, u: nat)
    requires Matching(j, s) && u < |s.copies|
  {
    forall v :: 0 <= v < |s.copies| && v != u && Active(s.copies[v]) ==> j.names[v] != j.names[u]
  }

  /** No copy begins while another with its temporary name is under way. */
  predicate Apart(j: Jobs, s: State, steps: seq<Step>)
    requires Matching(j, s)
    decreases |steps|
  {
    steps == [] ||
    (Enabled(j, s, steps[0]) && (steps[0].Begin? ==> Alone(j, s, steps[0].u))
     && Apart(j, Apply(j, s, steps[0]), steps[1..]))
  }

  // ---- What every step keeps ----------------------------------------------------------------------

  /** A copy under way has its temporary file, which holds what it has fetched; and the
      destination has what there was, or as much of the source as was sent. */
  predicate Owns(j: Jobs, s0: State, s: State, u: nat)
    requires Matching(j, s) && Matching(j, s0) && u < |s.copies|
  {
    var name, source, dest := j.names[u], j.sources[u], s.dests[u];
    var there := if name in s.dir && s.dir[name] < |s.disk| then Some(s.disk[s.dir[name]]) else None;
    && (dest == s0.dests[u] || (dest.Some? && dest.value <= source))
    && match s.copies[u]
       case Idle => dest == s0.dests[u]
       case Fetching(id, w) => name in s.dir && s.dir[name] == id && w <= |source| && there == Some(source[..w])
       case Fetched => there == Some(source)
       case Sending(id, sent) =>
         there == Some(source) && s.dir[name] == id && dest == Some(sent) && sent <= source
       case Ended(ok) => ok ==> dest == Some(source)
  }

  predicate Distinct(j: Jobs, s: State, u: nat, v: nat)
    requires Matching(j, s) && u < |s.copies| && v < |s.copies|
  {
    u != v && Active(s.copies[u]) && Active(s.copies[v]) ==> j.names[u] != j.names[v]
  }

  predicate Inv(j: Jobs, s0: State, s: State) {
    && Matching(j, s) && Matching(j, s0) && Tidy(s)
    && (forall u :: 0 <= u < |s.copies| ==> Owns(j, s0, s, u))
    && forall u, v :: 0 <= u < |s.copies| && 0 <= v < |s.copies| ==> Distinct(j, s, u, v)
  }

  lemma WriteStep(j: Jobs, s0: State, s: State, u: nat, k: nat)
    requires Inv(j, s0, s) && Enabled(j, s, Write(u, k))
    ensures Owns(j, s0, Apply(j, s, Write(u, k)), u)
  {
    var c, source := s.copies[u], j.sources[u];
    assert Owns(j, s0, s, u);
    assert source[..c.written] + source[c.written..c.written + k] == source[..c.written + k];
    assert Apply(j, s, Write(u, k)).disk[c.id] == source[..c.written + k];
  }

  lemma SendStep(j: Jobs, s0: State, s: State, u: nat, k: nat)
    requires Inv(j, s0, s) && Enabled(j, s, Send(u, k))
    ensures Owns(j, s0, Apply(j, s, Send(u, k)), u)
  {
    var c, source := s.copies[u], j.sources[u];
    assert Owns(j, s0, s, u);
    assert c.sent == source[..|c.sent|];
    assert source[..|c.sent|] + source[|c.sent|..|c.sent| + k] == source[..|c.sent| + k];
  }

  /** What step `st` makes of its own copy. */
  lemma OwnStep(j: Jobs, s0: State, s: State, st: Step)
    requires Inv(j, s0, s) && Enabled(j, s, st)
    ensures Owns(j, s0, Apply(j, s, st), st.u)
  {
    assert Owns(j, s0, s, st.u);
    match st
    case Write(u, k) => WriteStep(j, s0, s, u, k);
    case Send(u, k) => SendStep(j, s0, s, u, k);
    case Finish(u) => assert s.copies[u].sent == j.sources[u];
    case Arrive(u) => assert j.sources[u][..|j.sources[u]|] == j.sources[u];
    case _ =>
  }

  lemma StepTidy(j: Jobs, s0: State, s: State, st: Step)
    requires Inv(j, s0, s) && Enabled(j, s, st)
    ensures Tidy(Apply(j, s, st))
  {
    assert Owns(j, s0, s, st.u);
  }

  /** Another copy keeps its file. */
  lemma OtherStep(j: Jobs, s0: State, s: State, st: Step, v: nat)
    requires Inv(j, s0, s) && Enabled(j, s, st) && v < |s.copies| && v != st.u
    requires st.Begin? ==> Alone(j, s, st.u)
    ensures Owns(j, s0, Apply(j, s, st), v)
  {
    assert Owns(j, s0, s, st.u) && Owns(j, s0, s, v) && Distinct(j, s, st.u, v);
  }

  lemma StepKeeps(j: Jobs, s0: State, s: State, st: Step)
    requires Inv(j, s0, s) && Enabled(j, s, st) && (st.Begin? ==> Alone(j, s, st.u))
    ensures Inv(j, s0, Apply(j, s, st))
  {
    var t := Apply(j, s, st);
    StepTidy(j, s0, s, st);
    OwnStep(j, s0, s, st);
    forall v | 0 <= v < |s.copies|
      ensures Owns(j, s0, t, v)
    {
      if v != st.u {
        OtherStep(j, s0, s, st, v);
      }
    }
    forall v, w | 0 <= v < |s.copies| && 0 <= w < |s.copies|
      ensures Distinct(j, t, v, w)
    {
      assert Distinct(j, s, v, w);
    }
  }

  lemma {:induction false} RunKeeps(j: Jobs, s0: State, s: State, steps: seq<Step>, t: State)
    requires Inv(j, s0, s) && Run(j, s, steps, t) && Apart(j, s, steps)
    ensures Inv(j, s0, t)
    decreases |steps|
  {
    hide Owns, Distinct, Tidy;
    if steps != [] {
      StepKeeps(j, s0, s, steps[0]);
      RunKeeps(j, s0, Apply(j, s, steps[0]), steps[1..], t);
    }
  }

  /** In every interleaving in which no copy begins while another with its temporary name
      is under way: a copy that succeeds has put exactly its source at the destination, one
      that does not has put a front of it there at most, and none ever finds its temporary
      file missing. */
  lemma {:induction false} CopiesAreExact(j: Jobs, s0: State, steps: seq<Step>, s: State, u: nat)
    requires Start(j, s0) && Run(j, s0, steps, s) && Apart(j, s0, steps) && u < |s0.copies|
    ensures Matching(j, s)
    ensures s.copies[u] == Ended(true) ==> s.dests[u] == Some(j.sources[u])
    ensures s.dests[u] == s0.dests[u] || (s.dests[u].Some? && s.dests[u].value <= j.sources[u])
    ensures s.copies[u].Fetched? || s.copies[u].Sending? ==> j.names[u] in s.dir
  {
    RunKeeps(j, s0, s0, steps, s);
    assert Owns(j, s0, s, u);
  }

  // ---- Exactly when -------------------------------------------------------------------------------

  predicate DistinctNames(names: seq<string>) {
    forall u, v :: 0 <= u < v < |names| ==> names[u] != names[v]
  }

  lemma {:induction false} DistinctIsApart(j: Jobs, s: State, steps: seq<Step>, t: State)
    requires Matching(j, s) && DistinctNames(j.names) && Run(j, s, steps, t)
    ensures Apart(j, s, steps)
    decreases |steps|
  {
    hide Apply;
    if steps != [] {
      DistinctIsApart(j, Apply(j, s, steps[0]), steps[1..], t);
    }
  }

  /** Whatever is copied and however the steps interleave, success means the source. */
  ghost predicate AlwaysExact(names: seq<string>) {
    forall sources, s0, steps, s, u ::
      (|sources| == |names| && 0 <= u < |names|
       && Matching(Jobs(names, sources), s0) && Start(Jobs(names, sources), s0)
       && Run(Jobs(names, sources), s0, steps, s) && Matching(Jobs(names, sources), s)
       && s.copies[u] == Ended(true))
      ==> s.dests[u] == Some(sources[u])
  }

  lemma {:induction false} Counterexample(names: seq<string>, sources: seq<seq<byte>>, s0: State,
                                          steps: seq<Step>, s: State, u: nat)
    requires |sources| == |names| && u < |names| && Start(Jobs(names, sources), s0)
    requires Run(Jobs(names, sources), s0, steps, s) && Matching(Jobs(names, sources), s)
    requires s.copies[u] == Ended(true) && s.dests[u] != Some(sources[u])
    ensures !AlwaysExact(names)
  {
    hide Run;
  }

  lemma {:induction false} RunCons(j: Jobs, s: State, st: Step, steps: seq<Step>, t: State)
    requires Matching(j, s) && Enabled(j, s, st) && Run(j, Apply(j, s, st), steps, t)
    ensures Run(j, s, [st] + steps, t)
  {
    hide Enabled, Apply;
    assert ([st] + steps)[1..] == steps;
  }

  /** Copies `i` and `k` of different files, the others idle, one temporary file. */
  function Pair(n: nat, i: nat, k: nat): (sources: seq<seq<byte>>)
    requires i < n && k < n && i != k
    ensures |sources| == n && sources[i] == [1] && sources[k] == [2]
  {
    var none: seq<seq<byte>> := seq(n, _ => []);
    none[i := [1]][k := [2]]
  }

  function Both(n: nat, i: nat, k: nat, name: string, file: seq<byte>, ci: Copy, ck: Copy,
                dest: Option<seq<byte>>): (s: State)
    requires i < n && k < n && i != k
    ensures |s.copies| == |s.dests| == n && s.copies[i] == ci && s.copies[k] == ck && s.dests[i] == dest
  {
    State(map[name := 0], [file], seq(n, _ => Idle)[i := ci][k := ck], seq(n, _ => None)[i := dest])
  }

  lemma Reset<T>(s: seq<T>, i: nat, k: nat, a: T, b: T, a': T)
    requires i < |s| && k < |s| && i != k
    ensures s[i := a][k := b][i := a'] == s[i := a'][k := b] && s[i := a][k := b][k := a'] == s[i := a][k := a']
    ensures s[i := a][i := a'] == s[i := a'] && s[i := s[i]] == s
  {
  }

  lemma FirstFetches(names: seq<string>, i: nat, k: nat)
    requires i < |names| && k < |names| && i != k && names[i] == names[k]
    ensures var n, j := |names|, Jobs(names, Pair(|names|, i, k));
            var s0 := State(map[], [], seq(n, _ => Idle), seq(n, _ => None));
            var a := Both(n, i, k, names[i], [], Fetching(0, 0), Idle, None);
            var b := Both(n, i, k, names[i], [1], Fetching(0, 1), Idle, None);
            && Start(j, s0) && Enabled(j, s0, Begin(i)) && Apply(j, s0, Begin(i)) == a
            && Enabled(j, a, Write(i, 1)) && Apply(j, a, Write(i, 1)) == b
            && Enabled(j, b, Arrive(i)) && Apply(j, b, Arrive(i)) == Both(n, i, k, names[i], [1], Fetched, Idle, None)
  {
    hide Pair;
    var n := |names|;
    var idle: seq<Copy> := seq(n, _ => Idle);
    var none: seq<Option<seq<byte>>> := seq(n, _ => None);
    assert idle[k := Idle] == idle && none[i := None] == none;
    Reset(idle, i, k, Fetching(0, 0), Idle, Fetching(0, 1));
    Reset(idle, i, k, Fetching(0, 1), Idle, Fetched);
    assert idle[i := Fetching(0, 0)][k := Idle] == idle[i := Fetching(0, 0)];
    assert Download.WriteAt([], 0, [1]) == [1];
  }

  lemma SecondFetches(names: seq<string>, i: nat, k: nat)
    requires i < |names| && k < |names| && i != k && names[i] == names[k]
    ensures var n, j := |names|, Jobs(names, Pair(|names|, i, k));
            var a := Both(n, i, k, names[i], [1], Fetched, Idle, None);
            var b := Both(n, i, k, names[i], [], Fetched, Fetching(0, 0), None);
            && Enabled(j, a, Begin(k)) && Apply(j, a, Begin(k)) == b
            && Enabled(j, b, Write(k, 1))
            && Apply(j, b, Write(k, 1)) == Both(n, i, k, names[i], [2], Fetched, Fetching(0, 1), None)
  {
    hide Pair;
    var idle: seq<Copy> := seq(|names|, _ => Idle);
    Reset(idle, i, k, Fetched, Idle, Fetching(0, 0));
    Reset(idle, i, k, Fetched, Fetching(0, 0), Fetching(0, 1));
    assert Download.WriteAt([], 0, [2]) == [2];
  }

  lemma FirstOpens(names: seq<string>, i: nat, k: nat)
    requires i < |names| && k < |names| && i != k && names[i] == names[k]
    ensures var n, j, c := |names|, Jobs(names, Pair(|names|, i, k)), Fetching(0, 1);
            var a := Both(n, i, k, names[i], [2], Fetched, c, None);
            && Enabled(j, a, Open(i))
            && Apply(j, a, Open(i)) == Both(n, i, k, names[i], [2], Sending(0, []), c, Some([]))
  {
    hide Pair;
    var idle: seq<Copy> := seq(|names|, _ => Idle);
    var none: seq<Option<seq<byte>>> := seq(|names|, _ => None);
    Reset(idle, i, k, Fetched, Fetching(0, 1), Sending(0, []));
    Reset(none, i, k, None, None, Some([]));
  }

  lemma FirstSends(names: seq<string>, i: nat, k: nat) returns (s: State)
    requires i < |names| && k < |names| && i != k && names[i] == names[k]
    ensures var n, j, c := |names|, Jobs(names, Pair(|names|, i, k)), Fetching(0, 1);
            var a := Both(n, i, k, names[i], [2], Sending(0, []), c, Some([]));
            var b := Both(n, i, k, names[i], [2], Sending(0, [2]), c, Some([2]));
            && Enabled(j, a, Send(i, 1)) && Apply(j, a, Send(i, 1)) == b
            && Enabled(j, b, Finish(i)) && Apply(j, b, Finish(i)) == s
    ensures i < |s.copies| == |s.dests| == |names| && s.copies[i] == Ended(true) && s.dests[i] == Some([2])
  {
    hide Pair;
    var idle: seq<Copy> := seq(|names|, _ => Idle);
    var none: seq<Option<seq<byte>>> := seq(|names|, _ => None);
    var c := Fetching(0, 1);
    Reset(idle, i, k, Sending(0, []), c, Sending(0, [2]));
    Reset(none, i, k, Some([]), None, Some([2]));
    var two: seq<byte> := [2];
    assert [] + two[0..1] == two;
    s := Apply(Jobs(names, Pair(|names|, i, k)), Both(|names|, i, k, names[i], [2], Sending(0, [2]), c, Some([2])),
               Finish(i));
  }

  /** Two copies of one temporary name: the second truncates the first one's file after
      it has been fetched, and the first uploads what the second has fetched. */
  lemma SharedNameBreaks(names: seq<string>, i: nat, k: nat)
    requires i < |names| && k < |names| && i != k && names[i] == names[k]
    ensures !AlwaysExact(names)
  {
    var n, name, c := |names|, names[i], Fetching(0, 1);
    var j := Jobs(names, Pair(n, i, k));
    var s0 := State(map[], [], seq(n, _ => Idle), seq(n, _ => None));
    FirstFetches(names, i, k);
    SecondFetches(names, i, k);
    FirstOpens(names, i, k);
    var s8 := FirstSends(names, i, k);
    assert Run(j, s8, [], s8);
    hide AlwaysExact, Run, Pair, Both, Enabled, Apply, Start;
    RunCons(j, Both(n, i, k, name, [2], Sending(0, [2]), c, Some([2])), Finish(i), [], s8);
    var r7 := [Finish(i)] + [];
    RunCons(j, Both(n, i, k, name, [2], Sending(0, []), c, Some([])), Send(i, 1), r7, s8);
    var r6 := [Send(i, 1)] + r7;
    RunCons(j, Both(n, i, k, name, [2], Fetched, c, None), Open(i), r6, s8);
    var r5 := [Open(i)] + r6;
    RunCons(j, Both(n, i, k, name, [], Fetched, Fetching(0, 0), None), Write(k, 1), r5, s8);
    var r4 := [Write(k, 1)] + r5;
    RunCons(j, Both(n, i, k, name, [1], Fetched, Idle, None), Begin(k), r4, s8);
    var r3 := [Begin(k)] + r4;
    RunCons(j, Both(n, i, k, name, [1], Fetching(0, 1), Idle, None), Arrive(i), r3, s8);
    var r2 := [Arrive(i)] + r3;
    RunCons(j, Both(n, i, k, name, [], Fetching(0, 0), Idle, None), Write(i, 1), r2, s8);
    var r1 := [Write(i, 1)] + r2;
    RunCons(j, s0, Begin(i), r1, s8);
    Counterexample(names, j.sources, s0, [Begin(i)] + r1, s8, i);
  }

  /** Success means the source in every interleaving exactly if the temporary names are
      distinct. */
  lemma ExactExactly(names: seq<string>)
    ensures AlwaysExact(names) <==> DistinctNames(names)
  {
    hide Run, Start;
    if DistinctNames(names) {
      forall sources, s0, steps, s, u |
        && |sources| == |names| && 0 <= u < |names|
        && Matching(Jobs(names, sources), s0) && Start(Jobs(names, sources), s0)
        && Run(Jobs(names, sources), s0, steps, s) && Matching(Jobs(names, sources), s)
        && s.copies[u] == Ended(true)
        ensures s.dests[u] == Some(sources[u])
      {
        DistinctIsApart(Jobs(names, sources), s0, steps, s);
        CopiesAreExact(Jobs(names, sources), s0, steps, s, u);
      }
    } else {
      hide AlwaysExact;
      var i, k :| 0 <= i < k < |names| && names[i] == names[k];
      SharedNameBreaks(names, i, k);
    }
  }
}
