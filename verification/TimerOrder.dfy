/**
 Safety over whole runs: firing order, no early firing, what becomes of every registered timer,
 and the counters shared by the socket tables. The invariant looks at the fired timers followed by the pending ones.
 That line is strictly ordered by deadline and then by registration, and firing only moves the
 boundary between its two parts.
 */
module TimerOrder {
  import opened RelTimes
  import opened LoopState

  predicate Less(a: Timer, b: Timer) {
    Micros(a.time) < Micros(b.time) || (Micros(a.time) == Micros(b.time) && a.id < b.id)
  }

  ghost predicate Ordered(ts: seq<Timer>) {
    forall i, j | 0 <= i < j < |ts| :: Less(ts[i], ts[j])
  }

  function FiredTimers(fs: seq<Firing>): (ts: seq<Timer>)
    ensures |ts| == |fs|
  {
    seq(|fs|, i requires 0 <= i < |fs| => fs[i].timer)
  }

  function Timeline(s: Loop): seq<Timer> {
    FiredTimers(s.fired) + s.pending
  }

  /** Every firing happened at or after its deadline, and at a time no later than the next one. */
  ghost predicate FiredOnTime(s: Loop) {
    && (forall i | 0 <= i < |s.fired| :: Micros(s.fired[i].timer.time) <= s.fired[i].at <= s.clock)
    && (forall i, j | 0 <= i < j < |s.fired| :: s.fired[i].at <= s.fired[j].at)
  }

  /** Each registered timer is in exactly one of the fired, cancelled and pending ones, exactly once. */
  ghost predicate Conserved(s: Loop) {
    && (forall i | 0 <= i < |s.registered| :: s.registered[i].id == i)
    && multiset(Timeline(s)) + multiset(s.cancelled) == multiset(s.registered)
  }

  ghost predicate SocksBelow(socks: seq<Sock>, bound: int) {
    forall i | 0 <= i < |socks| :: socks[i].sock <= bound
  }

  /** The shared counters: count is the total size of the tables, and no descriptor exceeds maxSock,
      so that select(maxSock + 1, ...) looks at every registered descriptor. */
  ghost predicate Counted(s: Loop) {
    && s.count == |s.readers.socks| + |s.writers.socks| + |s.exceptions.socks|
    && SocksBelow(s.readers.socks, s.maxSock)
    && SocksBelow(s.writers.socks, s.maxSock)
    && SocksBelow(s.exceptions.socks, s.maxSock)
  }

  ghost predicate Inv(s: Loop) {
    && Counted(s)
    && Ordered(Timeline(s))
    && (forall t | t in s.pending :: Normal(t.time))
    && FiredOnTime(s)
    && Conserved(s)
  }

  lemma InitInv(clock: nat)
    ensures Inv(Init(clock))
  {
    assert Timeline(Init(clock)) == [];
  }

  // ---------- insertion ----------

  /** Where Insert puts t. */
  function InsertPos(ts: seq<Timer>, t: Timer): (k: nat)
    ensures k <= |ts|
    ensures forall i | 0 <= i < k :: !Before(t.time, ts[i].time)
    ensures k < |ts| ==> Before(t.time, ts[k].time)
  {
    if ts == [] || Before(t.time, ts[0].time) then 0 else 1 + InsertPos(ts[1..], t)
  }

  lemma {:induction false} InsertAt(ts: seq<Timer>, t: Timer)
    ensures var k := InsertPos(ts, t); Insert(ts, t) == ts[..k] + [t] + ts[k..]
  {
    if ts != [] && !Before(t.time, ts[0].time) {
      InsertAt(ts[1..], t);
    }
  }

  /** Inserting is determined by the position before the first later timer. */
  lemma {:induction false} InsertIs(ts: seq<Timer>, t: Timer, k: nat)
    requires k <= |ts|
    requires forall i | 0 <= i < k :: !Before(t.time, ts[i].time)
    requires k < |ts| ==> Before(t.time, ts[k].time)
    ensures Insert(ts, t) == ts[..k] + [t] + ts[k..]
  {
    InsertAt(ts, t);
    assert InsertPos(ts, t) == k;
  }

  lemma OrderedMiddle(a: seq<Timer>, t: Timer, b: seq<Timer>)
    requires Ordered(a + b)
    requires forall x | x in a :: Less(x, t)
    requires forall x | x in b :: Less(t, x)
    ensures Ordered(a + [t] + b)
  {
    var line, line' := a + b, a + [t] + b;
    forall i, j | 0 <= i < j < |line'| ensures Less(line'[i], line'[j]) {
      if i < |a| && j > |a| {
        assert line'[i] == line[i] && line'[j] == line[j - 1];
      } else if i > |a| {
        assert line'[i] == line[i - 1] && line'[j] == line[j - 1];
      } else if j < |a| {
        assert line'[i] == line[i] && line'[j] == line[j];
      }
    }
  }

  /** A newly registered timer, due no earlier than now, takes a place behind every fired timer and
      behind every pending one that is due no later: the line stays strictly ordered. */
  lemma InsertKeepsOrder(fs: seq<Timer>, ts: seq<Timer>, t: Timer)
    requires Ordered(fs + ts) && Normal(t.time) && forall x | x in ts :: Normal(x.time)
    requires forall x | x in fs :: Micros(x.time) <= Micros(t.time)
    requires forall x | x in fs + ts :: x.id < t.id
    ensures Ordered(fs + Insert(ts, t))
  {
    InsertAt(ts, t);
    var k := InsertPos(ts, t);
    var a, b := fs + ts[..k], ts[k..];
    assert a + b == fs + ts;
    forall x | x in a ensures Less(x, t) {
      assert x in fs + ts;
      if x !in fs {
        var i :| 0 <= i < k && ts[i] == x;
        BeforeIsLess(t.time, ts[i].time);
      }
    }
    forall x | x in b ensures Less(t, x) {
      var i :| k <= i < |ts| && ts[i] == x;
      BeforeIsLess(t.time, ts[k].time);
      assert (a + b)[|fs| + k] == ts[k] && (a + b)[|fs| + i] == ts[i];
      assert i == k || Less(ts[k], ts[i]);
    }
    OrderedMiddle(a, t, b);
    assert fs + Insert(ts, t) == a + [t] + b;
  }

  // ---------- removal ----------

  /** Select keeps only elements of the queue. */
  lemma {:induction false} SelectMembers(ts: seq<Timer>, cb: Callback, matching: bool)
    ensures forall x :: x in Select(ts, cb, matching) <==> x in ts && Matches(x, cb) == matching
  {
    if ts != [] {
      var n := |ts| - 1;
      SelectMembers(ts[..n], cb, matching);
      assert ts == ts[..n] + [ts[n]];
    }
  }

  lemma {:induction false} SelectSplits(ts: seq<Timer>, cb: Callback)
    ensures multiset(Select(ts, cb, true)) + multiset(Select(ts, cb, false)) == multiset(ts)
  {
    if ts != [] {
      var n := |ts| - 1;
      SelectSplits(ts[..n], cb);
      MultisetLast(ts[..n], ts[n]);
      assert ts == ts[..n] + [ts[n]];
      MultisetLast(Select(ts[..n], cb, Matches(ts[n], cb)), ts[n]);
    }
  }

  lemma MultisetLast(a: seq<Timer>, t: Timer)
    ensures multiset(a + [t]) == multiset(a) + multiset{t}
    ensures a + [] == a
  {
  }

  lemma {:induction false} SelectKeepsOrder(fs: seq<Timer>, ts: seq<Timer>, cb: Callback, matching: bool)
    requires Ordered(fs + ts)
    ensures Ordered(fs + Select(ts, cb, matching))
  {
    if ts != [] {
      var n := |ts| - 1;
      var line := fs + ts;
      assert fs + ts[..n] == line[..|line| - 1];
      SelectKeepsOrder(fs, ts[..n], cb, matching);
      SelectMembers(ts[..n], cb, matching);
      var kept := fs + Select(ts[..n], cb, matching);
      forall i | 0 <= i < |kept| ensures Less(kept[i], ts[n]) {
        assert kept[i] in fs + ts[..n];
        var j :| 0 <= j < |line| - 1 && line[j] == kept[i];
        assert line[|line| - 1] == ts[n];
      }
      assert fs + Select(ts, cb, matching) == kept + if Matches(ts[n], cb) == matching then [ts[n]] else [];
    } else {
      assert fs + Select(ts, cb, matching) == fs + ts;
    }
  }

  lemma SelectConcat(a: seq<Timer>, b: seq<Timer>, cb: Callback, matching: bool)
    ensures Select(a + b, cb, matching) == Select(a, cb, matching) + Select(b, cb, matching)
    decreases |b|
  {
    if b == [] {
      assert a + b == a;
    } else {
      var n := |b| - 1;
      assert (a + b)[..|a + b| - 1] == a + b[..n];
      SelectConcat(a, b[..n], cb, matching);
    }
  }

  // ---------- every operation keeps the invariant ----------

  lemma RegisteredIds(s: Loop)
    requires Conserved(s)
    ensures forall x | x in Timeline(s) || x in s.cancelled :: x.id < |s.registered| && s.registered[x.id] == x
  {
    forall x | x in Timeline(s) || x in s.cancelled
      ensures x.id < |s.registered| && s.registered[x.id] == x
    {
      assert x in multiset(Timeline(s)) + multiset(s.cancelled);
      assert x in s.registered;
      var i :| 0 <= i < |s.registered| && s.registered[i] == x;
    }
  }

  lemma MultisetMiddle(a: seq<Timer>, t: Timer, b: seq<Timer>)
    ensures multiset(a + [t] + b) == multiset(a + b) + multiset{t}
  {
    assert multiset(a + [t] + b) == multiset(a) + multiset{t} + multiset(b);
    assert multiset(a + b) == multiset(a) + multiset(b);
  }

  lemma InsertAdds(fs: seq<Timer>, ts: seq<Timer>, t: Timer)
    ensures multiset(fs + Insert(ts, t)) == multiset(fs + ts) + multiset{t}
  {
    InsertAt(ts, t);
    var k := InsertPos(ts, t);
    assert fs + Insert(ts, t) == (fs + ts[..k]) + [t] + ts[k..];
    assert fs + ts == (fs + ts[..k]) + ts[k..];
    MultisetMiddle(fs + ts[..k], t, ts[k..]);
  }

  lemma InsertMembers(ts: seq<Timer>, t: Timer)
    ensures forall x :: x in Insert(ts, t) <==> x in ts || x == t
  {
    InsertAt(ts, t);
    var k := InsertPos(ts, t);
    assert ts == ts[..k] + ts[k..];
  }

  lemma RegisterInv(s: Loop, secs: nat, usecs: nat, cb: Callback, wait: nat)
    requires Inv(s)
    ensures Inv(DoRegister(s, secs, usecs, cb, wait))
  {
    var s' := DoRegister(s, secs, usecs, cb, wait);
    var t := s'.registered[|s.registered|];
    var fs := FiredTimers(s.fired);
    RegisteredIds(s);
    assert t.id == |s.registered| && Micros(t.time) >= s.clock;
    forall x | x in fs ensures Micros(x.time) <= Micros(t.time) {
      var i :| 0 <= i < |s.fired| && fs[i] == x;
    }
    assert Timeline(s) == fs + s.pending && Timeline(s') == fs + s'.pending;
    InsertKeepsOrder(fs, s.pending, t);
    InsertAdds(fs, s.pending, t);
    InsertMembers(s.pending, t);
  }

  lemma CancelInv(s: Loop, cb: Callback)
    requires Inv(s)
    ensures Inv(DoCancel(s, cb))
  {
    SelectKeepsOrder(FiredTimers(s.fired), s.pending, cb, false);
    SelectSplits(s.pending, cb);
    SelectMembers(s.pending, cb, false);
  }

  lemma RemoveAtKeepsOrder(a: seq<Timer>, ts: seq<Timer>, k: nat)
    requires k < |ts|
    ensures Ordered(a + ts) ==> Ordered(a + RemoveAt(ts, k))
    ensures multiset(a + ts) == multiset(a + RemoveAt(ts, k)) + multiset{ts[k]}
  {
    var line, m := a + ts, |a| + k;
    assert a + RemoveAt(ts, k) == line[..m] + line[m + 1..];
    assert line == line[..m] + [line[m]] + line[m + 1..];
  }

  lemma CancelOneInv(s: Loop, cb: Callback, wait: nat)
    requires Inv(s)
    ensures Inv(DoCancelOne(s, cb, wait))
  {
    var k := FirstExact(s.pending, cb);
    if k < |s.pending| {
      RemoveAtKeepsOrder(FiredTimers(s.fired), s.pending, k);
    }
  }

  lemma AddSockCounted(s: Loop, kind: Kind, sock: Sock)
    requires Counted(s)
    ensures Counted(DoAddSock(s, kind, sock))
  {
  }

  lemma RemoveSockCounted(s: Loop, kind: Kind, fd: nat)
    requires Counted(s)
    ensures Counted(DoRemoveSock(s, kind, fd))
  {
  }

  lemma EffectInv(s: Loop, op: Op)
    requires Inv(s)
    ensures Inv(Effect(s, op))
  {
    match op
    case RegisterTimeout(secs, usecs, cb, wait) => RegisterInv(s, secs, usecs, cb, wait);
    case CancelTimeout(cb) => CancelInv(s, cb);
    case CancelTimeoutOne(cb, wait) => CancelOneInv(s, cb, wait);
    case DepleteTimeout(secs, usecs, cb, wait, wait2) => RearmInv(s, true, secs, usecs, cb, wait, wait2);
    case ReplenishTimeout(secs, usecs, cb, wait, wait2) => RearmInv(s, false, secs, usecs, cb, wait, wait2);
    case RegisterSock(kind, sock) => AddSockCounted(s, kind, sock); SameTimersInv(s, Effect(s, op));
    case UnregisterSock(kind, fd) => RemoveSockCounted(s, kind, fd); SameTimersInv(s, Effect(s, op));
    case Terminate => SameTimersInv(s, Effect(s, op));
  }

  lemma PerformInv(s: Loop, op: Op)
    requires Inv(s)
    ensures Inv(Perform(s, op))
  {
    EffectInv(s, op);
    SameTimersInv(Effect(s, op), Perform(s, op));
  }

  lemma RearmInv(s: Loop, deplete: bool, secs: nat, usecs: nat, cb: Callback, wait: nat, wait2: nat)
    requires Inv(s)
    ensures Inv(DoRearm(s, deplete, secs, usecs, cb, wait, wait2))
  {
    SameTimersInv(s, Tick(s, wait));
    CancelInv(Tick(s, wait), cb);
    RegisterInv(DoCancel(Tick(s, wait), cb), secs, usecs, cb, wait2);
  }

  /** Apart from the tables the invariant speaks only of the timers, and survives the passing of time. */
  lemma SameTimersInv(s: Loop, s': Loop)
    requires Inv(s) && s.clock <= s'.clock && Counted(s')
    requires s'.pending == s.pending && s'.registered == s.registered
    requires s'.cancelled == s.cancelled && s'.fired == s.fired
    ensures Inv(s')
  {
    assert Timeline(s') == Timeline(s);
  }

  lemma {:induction false} RunOpsInv(s: Loop, ops: seq<Op>)
    requires Inv(s)
    ensures Inv(RunOps(s, ops))
  {
    if ops != [] {
      RunOpsInv(s, ops[..|ops| - 1]);
      PerformInv(RunOps(s, ops[..|ops| - 1]), ops[|ops| - 1]);
    }
  }

  /** Firing the head moves it across the boundary of the line and changes nothing else. */
  lemma TakeHeadInv(s: Loop)
    requires Inv(s) && s.pending != [] && Micros(s.pending[0].time) <= s.clock
    ensures Inv(s.(pending := s.pending[1..], fired := s.fired + [Firing(s.pending[0], s.clock)]))
  {
    var s' := s.(pending := s.pending[1..], fired := s.fired + [Firing(s.pending[0], s.clock)]);
    assert Timeline(s') == Timeline(s);
  }

  lemma FireHeadInv(s: Loop, wait: nat, script: seq<Op>)
    requires Inv(s)
    ensures Inv(FireHead(s, wait, script))
  {
    if s.pending != [] {
      var s1 := Tick(s, wait);
      SameTimersInv(s, s1);
      if Micros(s.pending[0].time) <= s1.clock {
        TakeHeadInv(s1);
        RunOpsInv(s1.(pending := s1.pending[1..], fired := s1.fired + [Firing(s1.pending[0], s1.clock)]), script);
      }
    }
  }

  lemma {:induction false} DispatchFromInv(s: Loop, kind: Kind, fds: set<nat>, scripts: seq<seq<Op>>, i: nat, k: nat)
    requires !GetTable(s, kind).changed && Inv(s)
    ensures Inv(DispatchFrom(s, kind, fds, scripts, i, k))
    decreases |GetTable(s, kind).socks| - i
  {
    var socks := GetTable(s, kind).socks;
    if i < |socks| {
      if socks[i].sock !in fds {
        DispatchFromInv(s, kind, fds, scripts, i + 1, k);
      } else {
        var s0 := s.(called := s.called + [Call(kind, socks[i])]);
        SameTimersInv(s, s0);
        RunOpsInv(s0, Script(scripts, k));
        OpsKeepFlag(s0, Script(scripts, k), kind);
        var s1 := CallSock(s, kind, socks[i], Script(scripts, k));
        if !GetTable(s1, kind).changed {
          DispatchFromInv(s1, kind, fds, scripts, i + 1, k + 1);
        }
      }
    }
  }

  lemma DispatchInv(s: Loop, kind: Kind, fds: set<nat>, scripts: seq<seq<Op>>)
    requires Inv(s)
    ensures Inv(Dispatch(s, kind, fds, scripts))
  {
    SameTimersInv(s, ClearChanged(s, kind));
    DispatchFromInv(ClearChanged(s, kind), kind, fds, scripts, 0, 0);
  }

  lemma UpToTimersInv(asked: Loop, p: Pass)
    requires Inv(asked)
    ensures Inv(UpToTimers(asked, p))
  {
    var s := ClearAllChanged(Tick(asked, p.selectWait));
    SameTimersInv(asked, s);
    RunOpsInv(s, p.signalOps);
    FireHeadInv(RunOps(s, p.signalOps), p.wait1, p.timerOps);
  }

  lemma FinishPassInv(asked: Loop, p: Pass)
    requires Inv(asked)
    ensures Inv(FinishPass(asked, p).loop)
  {
    SameTimersInv(asked, Tick(asked, p.selectWait));
    UpToTimersInv(asked, p);
    var s := UpToTimers(asked, p);
    if p.select.Ready? {
      var r, w, e := ReadyFds(asked.readers, p.select.r), ReadyFds(asked.writers, p.select.w), ReadyFds(asked.exceptions, p.select.e);
      DispatchInv(s, Read, r, p.readScripts);
      var s1 := Dispatch(s, Read, r, p.readScripts);
      DispatchInv(s1, Write, w, p.writeScripts);
      DispatchInv(Dispatch(s1, Write, w, p.writeScripts), Exception, e, p.exceptionScripts);
    }
  }

  lemma RunPassInv(r: Run, p: Pass)
    requires Inv(r.loop)
    ensures Inv(RunPass(r, p).loop)
  {
    SameTimersInv(r.loop, r.loop.(terminate := false));
    RunOpsInv(r.loop, p.early);
    var s := if p.earlyRuns then RunOps(r.loop, p.early) else r.loop;
    SameTimersInv(s, s.(terminate := false));
    SameTimersInv(s, BeforeSelect(s, p));
    FinishPassInv(BeforeSelect(s, p), p);
  }

  lemma {:induction false} RunPassesInv(r: Run, passes: seq<Pass>)
    requires Inv(r.loop)
    ensures Inv(RunPasses(r, passes).loop)
  {
    if passes != [] {
      RunPassesInv(r, passes[..|passes| - 1]);
      RunPassInv(RunPasses(r, passes[..|passes| - 1]), passes[|passes| - 1]);
    }
  }

  // ---------- what a whole run does ----------

  /** A stretch of a program: calls into the loop, then eloop_run for some passes. */
  datatype Phase = Phase(setup: seq<Op>, passes: seq<Pass>)

  /** The history of a program from eloop_init on. */
  function Execute(clock: nat, phases: seq<Phase>): Loop {
    if phases == [] then Init(clock)
    else
      var n := |phases| - 1;
      RunPasses(Run(RunOps(Execute(clock, phases[..n]), phases[n].setup), true), phases[n].passes).loop
  }

  /** Whatever the callbacks do: deadlines of fired timers never decrease, equal deadlines fire in
      registration order, no timer fires before its deadline, and no timer still pending should have
      fired before one that has. */
  lemma FiringOrder(clock: nat, phases: seq<Phase>, i: nat, j: nat)
    requires i < j < |Execute(clock, phases).fired|
    ensures var fired := Execute(clock, phases).fired;
      var a, b := fired[i], fired[j];
      && Micros(a.timer.time) <= Micros(b.timer.time)
      && (Micros(a.timer.time) == Micros(b.timer.time) ==> a.timer.id < b.timer.id)
      && Micros(a.timer.time) <= a.at <= b.at && Micros(b.timer.time) <= b.at
  {
    ExecuteInv(clock, phases);
    var s := Execute(clock, phases);
    assert Less(Timeline(s)[i], Timeline(s)[j]);
  }

  lemma {:induction false} ExecuteInv(clock: nat, phases: seq<Phase>)
    ensures Inv(Execute(clock, phases))
  {
    if phases == [] {
      InitInv(clock);
    } else {
      var n := |phases| - 1;
      ExecuteInv(clock, phases[..n]);
      RunOpsInv(Execute(clock, phases[..n]), phases[n].setup);
      RunPassesInv(Run(RunOps(Execute(clock, phases[..n]), phases[n].setup), true), phases[n].passes);
    }
  }

  /** How often a timer occurs among the fired, the cancelled and the pending ones. */
  ghost function Occurrences(s: Loop, t: Timer): (int, int, int) {
    (multiset(FiredTimers(s.fired))[t], multiset(s.cancelled)[t], multiset(s.pending)[t])
  }

  /** At any point of any run every registered timer has exactly one fate, and nothing that was
      not registered is ever fired, cancelled or pending. */
  lemma ExactlyOneFate(clock: nat, phases: seq<Phase>, t: Timer)
    ensures var s := Execute(clock, phases);
      Occurrences(s, t) in
      if t in s.registered then {(1, 0, 0), (0, 1, 0), (0, 0, 1)} else {(0, 0, 0)}
  {
    ExecuteInv(clock, phases);
    var s := Execute(clock, phases);
    OccursOnce(s, t);
  }

  lemma OccursOnce(s: Loop, t: Timer)
    requires Conserved(s)
    ensures Occurrences(s, t) in if t in s.registered then {(1, 0, 0), (0, 1, 0), (0, 0, 1)} else {(0, 0, 0)}
  {
    OnceIfRegistered(s.registered, t);
    assert multiset(Timeline(s)) == multiset(FiredTimers(s.fired)) + multiset(s.pending);
    var o := Occurrences(s, t);
    OneOfThree(o.0, o.1, o.2);
  }

  lemma OneOfThree(a: nat, b: nat, c: nat)
    ensures a + b + c == 1 ==> (a, b, c) in {(1, 0, 0), (0, 1, 0), (0, 0, 1)}
    ensures a + b + c == 0 ==> (a, b, c) in {(0, 0, 0)}
  {
  }

  lemma {:induction false} OnceIfRegistered(ts: seq<Timer>, t: Timer)
    requires forall i | 0 <= i < |ts| :: ts[i].id == i
    ensures multiset(ts)[t] == if t in ts then 1 else 0
  {
    if ts != [] {
      var n := |ts| - 1;
      assert ts == ts[..n] + [ts[n]];
      OnceIfRegistered(ts[..n], t);
    }
  }
}
