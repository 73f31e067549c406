/** The authentication rate limiter: a mutable table of failures per address, and how
    many failures one address can get recorded in a minute, whatever else is going on. */
module RateLimit {
  import opened Bytes

  const AUTH_MAX_FAILURES := 5
  const AUTH_LOCKOUT_SECS := 60
  const MAX_TRACKED_IPS := 10_000

  /** Nanoseconds, the resolution of the clock. */
  const SECOND := 1_000_000_000
  const LOCKOUT: nat := AUTH_LOCKOUT_SECS * SECOND

  datatype Ip = V4(bits: u32) | V6(high: u64, low: u64)

  datatype Failures = Failures(count: nat, last: nat)

  type Table = map<Ip, Failures>

  // ---- What each operation does --------------------------------------------------------------

  /** `elapsed().as_secs()`: whole seconds. */
  function ElapsedSecs(last: nat, now: nat): nat {
    if now >= last then (now - last) / SECOND else 0
  }

  /** The table says the address is locked out. */
  predicate Locked(t: Table, ip: Ip, now: nat) {
    ip in t && t[ip].count >= AUTH_MAX_FAILURES && ElapsedSecs(t[ip].last, now) < AUTH_LOCKOUT_SECS
  }

  /** `is_locked_out` forgets a lockout that has expired. */
  function Checked(t: Table, ip: Ip, now: nat): Table {
    if ip in t && t[ip].count >= AUTH_MAX_FAILURES && !Locked(t, ip, now) then t - {ip} else t
  }

  function Retained(t: Table, now: nat): Table {
    map ip | ip in t && ElapsedSecs(t[ip].last, now) < AUTH_LOCKOUT_SECS * 2 :: t[ip]
  }

  function CountOf(t: Table, ip: Ip): nat {
    if ip in t then t[ip].count else 0
  }

  function Recorded(t: Table, ip: Ip, now: nat): Table {
    var added := t[ip := Failures(CountOf(t, ip) + 1, now)];
    if |added| > MAX_TRACKED_IPS / 2 then Retained(added, now) else added
  }

  lemma RetainedTwice(t: Table, now: nat)
    ensures Retained(Retained(t, now), now) == Retained(t, now)
  {
    assert Retained(Retained(t, now), now).Keys == Retained(t, now).Keys;
  }

  // ---- The code --------------------------------------------------------------------------------

  class AuthRateLimiter {
    var failures: Table

    constructor ()
      ensures failures == map[]
    {
      failures := map[];
    }

    method IsLockedOut(ip: Ip, now: nat) returns (locked: bool)
      modifies this
      ensures locked == Locked(old(failures), ip, now)
      ensures failures == Checked(old(failures), ip, now)
    {
      if ip in failures {
        var entry := failures[ip];
        if entry.count >= AUTH_MAX_FAILURES {
          if ElapsedSecs(entry.last, now) < AUTH_LOCKOUT_SECS {
            return true;
          }
          failures := failures - {ip};
        }
      }
      locked := false;
    }

    method RecordFailure(ip: Ip, now: nat)
      modifies this
      ensures failures == Recorded(old(failures), ip, now)
    {
      if ip !in failures {
        failures := failures[ip := Failures(0, now)];
      }
      failures := failures[ip := failures[ip].(count := failures[ip].count + 1)];
      failures := failures[ip := failures[ip].(last := now)];
      ghost var added := failures;
      assert added == old(failures)[ip := Failures(CountOf(old(failures), ip) + 1, now)];
      if |failures| > MAX_TRACKED_IPS / 2 {
        CleanupExpired(now);
      }
      if |failures| > MAX_TRACKED_IPS {
        CleanupExpired(now);
        RetainedTwice(added, now);
      }
    }

    method CleanupExpired(now: nat)
      modifies this
      ensures failures == Retained(old(failures), now)
    {
      failures := map ip | ip in failures && ElapsedSecs(failures[ip].last, now) < AUTH_LOCKOUT_SECS * 2
                    :: failures[ip];
    }

    method Clear(ip: Ip)
      modifies this
      ensures failures == old(failures) - {ip}
    {
      failures := failures - {ip};
    }
  }

  /** Cleaning up unlocks no one, and neither does another address's failure. */
  lemma CleanupKeepsLocks(t: Table, ip: Ip, other: Ip, now: nat)
    ensures Locked(Retained(t, now), ip, now) <==> Locked(t, ip, now)
    ensures other != ip ==> (Locked(Recorded(t, other, now), ip, now) <==> Locked(t, ip, now))
  {
  }

  /** A lockout takes five failures and lasts sixty seconds from the last of them. */
  lemma LockedExactly(t: Table, ip: Ip, now: nat)
    ensures Locked(t, ip, now) <==> ip in t && t[ip].count >= 5 && now < t[ip].last + 60_000_000_000
  {
  }

  /** Once it is over, the address is not locked out at any later time, and the next check
      forgets its failures and no one else's. */
  lemma LockoutEnds(t: Table, ip: Ip, now: nat)
    requires ip in t && t[ip].count >= 5 && t[ip].last + 60_000_000_000 <= now
    ensures !Locked(t, ip, now) && Checked(t, ip, now) == t - {ip} && CountOf(Checked(t, ip, now), ip) == 0
    ensures forall later: nat :: later >= now ==> !Locked(t, ip, later) && !Locked(Checked(t, ip, now), ip, later)
  {
    forall later: nat | later >= now
      ensures !Locked(t, ip, later)
    {
      LockedExactly(t, ip, later);
    }
    assert ip !in t - {ip};
  }

  /** A check before that changes nothing. */
  lemma CheckWaits(t: Table, ip: Ip, now: nat)
    requires CountOf(t, ip) < 5 || now < t[ip].last + 60_000_000_000
    ensures Checked(t, ip, now) == t
  {
  }

  /** A failure counts one more for its address and dates it; when more than 5000 addresses
      are on record, those quiet for two minutes are dropped, and otherwise none. */
  lemma RecordedExactly(t: Table, ip: Ip, now: nat, other: Ip)
    ensures var r := Recorded(t, ip, now);
            && ip in r && r[ip] == Failures(CountOf(t, ip) + 1, now)
            && (other != ip ==>
                  (other in r <==>
                     other in t && (|t.Keys + {ip}| <= 5000 || now < t[other].last + 120_000_000_000))
                  && (other in r ==> r[other] == t[other]))
  {
    var added := t[ip := Failures(CountOf(t, ip) + 1, now)];
    assert added.Keys == t.Keys + {ip} && |added| == |added.Keys|;
  }

  // ---- Handshakes, one address watched ---------------------------------------------------------------

  /** `flying`: handshakes of the watched address that have passed the check and not
      ended. `log`: when its failures since its last success were recorded. `resumes`:
      when a RESUME of it was refused for its token. */
  datatype State = State(table: Table, now: nat, flying: nat, log: seq<nat>, resumes: seq<nat>)

  datatype Event =
    | Tick(dt: nat)
    | Attempt(ip: Ip)
    | Fail(ip: Ip)
    /** The connection broke off before a verdict. */
    | Abandon(ip: Ip)
    | Succeed(ip: Ip)
    /** A RESUME whose token is compared: the limiter is neither asked nor told. */
    | Resume(ip: Ip, accepted: bool)

  /** At most `k` handshakes of address `a` are under way at a time; `k` of 1 is one
      attempt after another. */
  predicate Enabled(a: Ip, k: nat, s: State, e: Event) {
    match e
    case Tick(_) => true
    case Attempt(ip) => ip == a ==> s.flying < k
    case Fail(ip) => ip == a ==> s.flying > 0
    case Abandon(ip) => ip == a ==> s.flying > 0
    case Succeed(ip) => ip == a ==> s.flying > 0
    case Resume(_, _) => true
  }

  function Apply(a: Ip, k: nat, s: State, e: Event): State
    requires Enabled(a, k, s, e)
  {
    match e
    case Tick(dt) => s.(now := s.now + dt)
    case Attempt(ip) =>
      s.(table := Checked(s.table, ip, s.now),
         flying := if ip == a && !Locked(s.table, ip, s.now) then s.flying + 1 else s.flying)
    case Fail(ip) =>
      var table := Recorded(s.table, ip, s.now);
      if ip == a then s.(table := table, flying := s.flying - 1, log := s.log + [s.now]) else s.(table := table)
    case Abandon(ip) => if ip == a then s.(flying := s.flying - 1) else s
    case Succeed(ip) =>
      if ip == a then s.(table := s.table - {ip}, flying := s.flying - 1, log := [])
      else s.(table := s.table - {ip})
    case Resume(ip, accepted) =>
      if ip == a && !accepted then s.(resumes := s.resumes + [s.now]) else s
  }

  /** The failures counted by the table are the last ones of the log; the others are a
      full lockout older than those, or than now. */
  predicate Accounts(c: nat, log: seq<nat>, now: nat) {
    && c <= |log|
    && (forall i :: 0 <= i < |log| ==> log[i] <= now)
    && (forall i, j :: 0 <= i < j < |log| ==> log[i] <= log[j])
    && forall i :: 0 <= i < |log| - c ==> log[i] + LOCKOUT <= if c > 0 then log[|log| - c] else now
  }

  /** Failures `4 + k` apart in the log are a lockout apart in time. */
  predicate Spread(log: seq<nat>, bound: nat) {
    forall i :: 0 <= i < |log| - bound ==> log[i] + LOCKOUT <= log[i + bound]
  }

  predicate Inv(a: Ip, k: nat, s: State) {
    var c := CountOf(s.table, a);
    && s.flying <= k && (c >= AUTH_MAX_FAILURES ==> c + s.flying <= 4 + k)
    && (a in s.table ==> c > 0 && s.log != [] && s.table[a].last == s.log[|s.log| - 1])
    && Accounts(c, s.log, s.now) && Spread(s.log, 4 + k)
  }

  /** One more failure: the ones before those counted are a lockout older than it too. */
  lemma OneMore(c: nat, log: seq<nat>, now: nat)
    requires Accounts(c, log, now)
    ensures Accounts(c + 1, log + [now], now)
  {
  }

  lemma SpreadMore(c: nat, log: seq<nat>, now: nat, bound: nat)
    requires Accounts(c, log, now) && Accounts(c + 1, log + [now], now) && Spread(log, bound) && c < bound
    ensures Spread(log + [now], bound)
  {
    var log' := log + [now];
    forall i | 0 <= i < |log'| - bound
      ensures log'[i] + LOCKOUT <= log'[i + bound]
    {
      if i < |log| - bound {
        assert log[i] + LOCKOUT <= log[i + bound];
      } else {
        assert i < |log| - c;
      }
    }
  }

  lemma FailKeeps(a: Ip, k: nat, s: State)
    requires Inv(a, k, s) && s.flying > 0
    ensures Inv(a, k, Apply(a, k, s, Fail(a)))
  {
    hide Accounts, Spread;
    var s' := Apply(a, k, s, Fail(a));
    var c := CountOf(s.table, a);
    assert a in s'.table && s'.table[a] == Failures(c + 1, s.now);
    OneMore(c, s.log, s.now);
    SpreadMore(c, s.log, s.now, 4 + k);
  }

  /** Whatever the others do, or the clock, or a check: the watched address's entry
      changes only if its last failure is a lockout old. */
  lemma QuietKeeps(a: Ip, k: nat, s: State, s': State)
    requires Inv(a, k, s)
    requires s'.now >= s.now && s'.log == s.log && s'.flying <= k
    requires s'.flying <= s.flying || CountOf(s'.table, a) < AUTH_MAX_FAILURES
    requires || (CountOf(s'.table, a) == CountOf(s.table, a) && (a in s'.table <==> a in s.table)
                 && (a in s.table ==> s'.table[a] == s.table[a]))
             || (a !in s'.table && a in s.table && s.table[a].last + LOCKOUT <= s'.now)
    ensures Inv(a, k, s')
  {
  }

  lemma StepKeeps(a: Ip, k: nat, s: State, e: Event)
    requires Inv(a, k, s) && Enabled(a, k, s, e)
    ensures Inv(a, k, Apply(a, k, s, e))
  {
    hide Inv;
    if e == Fail(a) {
      FailKeeps(a, k, s);
    } else if e == Succeed(a) {
      SuccessKeeps(a, k, s);
    } else {
      TableOf(a, k, s, e);
      QuietKeeps(a, k, s, Apply(a, k, s, e));
    }
  }

  lemma SuccessKeeps(a: Ip, k: nat, s: State)
    requires Inv(a, k, s) && s.flying > 0
    ensures Inv(a, k, Apply(a, k, s, Succeed(a)))
  {
  }

  lemma TableOf(a: Ip, k: nat, s: State, e: Event)
    requires Inv(a, k, s) && Enabled(a, k, s, e) && e != Fail(a) && e != Succeed(a)
    ensures var s' := Apply(a, k, s, e);
            && s'.now >= s.now && s'.log == s.log && s'.flying <= k
            && (s'.flying <= s.flying || CountOf(s'.table, a) < AUTH_MAX_FAILURES)
            && ((CountOf(s'.table, a) == CountOf(s.table, a) && (a in s'.table <==> a in s.table)
                 && (a in s.table ==> s'.table[a] == s.table[a]))
                || (a !in s'.table && a in s.table && s.table[a].last + LOCKOUT <= s'.now))
  {
    hide Accounts, Spread;
  }

  predicate Run(a: Ip, k: nat, s: State, es: seq<Event>, t: State)
    decreases |es|
  {
    if es == [] then s == t
    else Enabled(a, k, s, es[0]) && Run(a, k, Apply(a, k, s, es[0]), es[1..], t)
  }

  lemma {:induction false} RunKeeps(a: Ip, k: nat, s: State, es: seq<Event>, t: State)
    requires Inv(a, k, s) && Run(a, k, s, es, t)
    ensures Inv(a, k, t)
    decreases |es|
  {
    hide Inv, Enabled, Apply;
    if es != [] {
      StepKeeps(a, k, s, es[0]);
      RunKeeps(a, k, Apply(a, k, s, es[0]), es[1..], t);
    }
  }

  function Start(now: nat): State {
    State(map[], now, 0, [], [])
  }

  /** How many of the log's failures lie in the window `[from, from + 60 s)`. */
  function Within(log: seq<nat>, from: nat): nat {
    if log == [] then 0
    else
      var n := |log| - 1;
      Within(log[..n], from) + if from <= log[n] < from + LOCKOUT then 1 else 0
  }

  lemma {:induction false} WithinAtMost(log: seq<nat>, from: nat, m: nat)
    requires m <= |log| && forall i :: 0 <= i < m ==> log[i] < from
    ensures Within(log, from) <= |log| - m
  {
    if log != [] {
      var n := |log| - 1;
      if m == |log| {
        WithinAtMost(log[..n], from, n);
      } else {
        WithinAtMost(log[..n], from, m);
      }
    }
  }

  lemma {:induction false} SpreadWithin(log: seq<nat>, from: nat, bound: nat)
    requires Spread(log, bound) && bound > 0
    requires forall i, j :: 0 <= i < j < |log| ==> log[i] <= log[j]
    ensures Within(log, from) <= bound
  {
    if log != [] {
      var n := |log| - 1;
      if log[n] < from + LOCKOUT {
        var m := if |log| > bound then |log| - bound else 0;
        forall i | 0 <= i < m
          ensures log[i] < from
        {
          assert log[i] + LOCKOUT <= log[i + bound] <= log[n];
        }
        WithinAtMost(log, from, m);
      } else {
        assert forall i :: 0 <= i < n - bound ==> log[..n][i] + LOCKOUT <= log[..n][i + bound];
        SpreadWithin(log[..n], from, bound);
      }
    }
  }

  /** In every interleaving of any number of addresses, cleanups included: an address with
      at most `k` handshakes under way at a time gets at most `4 + k` failures recorded in
      any 60 seconds without a success between them; one attempt after another, at most 5.
      The counter itself never exceeds that. */
  lemma {:induction false} WindowBound(a: Ip, k: nat, now: nat, es: seq<Event>, t: State, from: nat)
    requires k > 0 && Run(a, k, Start(now), es, t)
    ensures Within(t.log, from) <= 4 + k
    ensures CountOf(t.table, a) <= 4 + k
  {
    RunKeeps(a, k, Start(now), es, t);
    SpreadWithin(t.log, from, 4 + k);
  }

  // ---- What the bound does not cover -----------------------------------------------------------------

  function Repeat(e: Event, n: nat): seq<Event> {
    seq(n, _ => e)
  }

  /** Refused RESUMEs leave the table, and so every lockout, as it was; and any number of
      them may follow each other, in any state and while the address is locked out. The
      bound on recorded failures is a bound on the HELLOs alone. */
  lemma {:induction false} ResumesAreNotCounted(a: Ip, k: nat, s: State, n: nat)
    returns (t: State)
    ensures Run(a, k, s, Repeat(Resume(a, false), n), t)
    ensures t == s.(resumes := t.resumes) && |t.resumes| == |s.resumes| + n
    ensures Within(t.resumes, s.now) == Within(s.resumes, s.now) + n
    decreases n
  {
    if n == 0 {
      t := s;
    } else {
      var next := Apply(a, k, s, Resume(a, false));
      assert next.resumes[..|s.resumes|] == s.resumes;
      t := ResumesAreNotCounted(a, k, next, n - 1);
      assert Repeat(Resume(a, false), n)[1..] == Repeat(Resume(a, false), n - 1);
    }
  }

  // ---- The bound is met -------------------------------------------------------------------------------------

  lemma {:induction false} RunJoin(a: Ip, k: nat, s: State, es: seq<Event>, t: State, fs: seq<Event>, u: State)
    requires Run(a, k, s, es, t) && Run(a, k, t, fs, u)
    ensures Run(a, k, s, es + fs, u)
    decreases |es|
  {
    hide Enabled, Apply;
    if es == [] {
      assert es + fs == fs;
    } else {
      RunJoin(a, k, Apply(a, k, s, es[0]), es[1..], t, fs, u);
      assert (es + fs)[1..] == es[1..] + fs;
    }
  }

  function TableWith(a: Ip, c: nat): Table {
    if c == 0 then map[] else map[a := Failures(c, 0)]
  }

  function Zeros(n: nat): seq<nat> {
    seq(n, _ => 0)
  }

  /** `c` failures recorded at time 0 and `f` handshakes under way. */
  function At(a: Ip, c: nat, f: nat): State {
    State(TableWith(a, c), 0, f, Zeros(c), [])
  }

  lemma OneAttempt(a: Ip, k: nat, c: nat, f: nat)
    requires c < AUTH_MAX_FAILURES && f < k
    ensures Enabled(a, k, At(a, c, f), Attempt(a)) && Apply(a, k, At(a, c, f), Attempt(a)) == At(a, c, f + 1)
  {
  }

  lemma OneFailure(a: Ip, k: nat, c: nat, f: nat)
    requires f > 0
    ensures Enabled(a, k, At(a, c, f), Fail(a)) && Apply(a, k, At(a, c, f), Fail(a)) == At(a, c + 1, f - 1)
  {
    assert Zeros(c) + [0] == Zeros(c + 1);
    assert |TableWith(a, c)[a := Failures(c + 1, 0)]| == 1 by {
      assert TableWith(a, c)[a := Failures(c + 1, 0)] == map[a := Failures(c + 1, 0)];
    }
  }

  lemma {:induction false} Attempts(a: Ip, k: nat, c: nat, f: nat, n: nat)
    requires c < AUTH_MAX_FAILURES && f + n <= k
    ensures Run(a, k, At(a, c, f), Repeat(Attempt(a), n), At(a, c, f + n))
    decreases n
  {
    hide Enabled, Apply, At;
    if n > 0 {
      OneAttempt(a, k, c, f);
      Attempts(a, k, c, f + 1, n - 1);
      assert Repeat(Attempt(a), n)[1..] == Repeat(Attempt(a), n - 1);
    }
  }

  lemma {:induction false} Fails(a: Ip, k: nat, c: nat, f: nat, n: nat)
    requires n <= f
    ensures Run(a, k, At(a, c, f), Repeat(Fail(a), n), At(a, c + n, f - n))
    decreases n
  {
    hide Enabled, Apply, At;
    if n > 0 {
      OneFailure(a, k, c, f);
      Fails(a, k, c + 1, f - 1, n - 1);
      assert Repeat(Fail(a), n)[1..] == Repeat(Fail(a), n - 1);
    }
  }

  lemma {:induction false} Rounds(a: Ip, k: nat, n: nat) returns (es: seq<Event>)
    requires k > 0 && n <= 4
    ensures Run(a, k, At(a, 0, 0), es, At(a, n, 0))
  {
    hide Enabled, Apply, At;
    if n == 0 {
      es := [];
    } else {
      var before := Rounds(a, k, n - 1);
      Attempts(a, k, n - 1, 0, 1);
      Fails(a, k, n - 1, 1, 1);
      RunJoin(a, k, At(a, n - 1, 0), Repeat(Attempt(a), 1), At(a, n - 1, 1), Repeat(Fail(a), 1), At(a, n, 0));
      RunJoin(a, k, At(a, 0, 0), before, At(a, n - 1, 0), Repeat(Attempt(a), 1) + Repeat(Fail(a), 1), At(a, n, 0));
      es := before + (Repeat(Attempt(a), 1) + Repeat(Fail(a), 1));
    }
  }

  lemma {:induction false} AllWithin(n: nat)
    ensures Within(Zeros(n), 0) == n
  {
    if n > 0 {
      AllWithin(n - 1);
      assert Zeros(n)[..n - 1] == Zeros(n - 1);
    }
  }

  /** The bound is met for every `k`: with handshakes overlapping, more than 5 failures
      do get recorded in a window. */
  lemma BoundIsMet(a: Ip, k: nat) returns (es: seq<Event>, t: State)
    requires k > 0
    ensures Run(a, k, Start(0), es, t) && Within(t.log, 0) == 4 + k
  {
    hide Enabled, Apply;
    var four := Rounds(a, k, 4);
    Attempts(a, k, 4, 0, k);
    Fails(a, k, 4, k, k);
    t := At(a, 4 + k, 0);
    RunJoin(a, k, At(a, 4, 0), Repeat(Attempt(a), k), At(a, 4, k), Repeat(Fail(a), k), t);
    RunJoin(a, k, At(a, 0, 0), four, At(a, 4, 0), Repeat(Attempt(a), k) + Repeat(Fail(a), k), t);
    es := four + (Repeat(Attempt(a), k) + Repeat(Fail(a), k));
    assert At(a, 0, 0) == Start(0);
    AllWithin(4 + k);
  }
}
