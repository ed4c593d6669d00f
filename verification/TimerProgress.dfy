/**
 Progress of the timer queue: the position of a due timer only shrinks, and every completed pass
 of the loop shrinks it by at least one, whatever the callbacks register, cancel or re-arm.
 */
module TimerProgress {
  import opened RelTimes
  import opened LoopState
  import opened TimerOrder

  /** The timer has run. */
  ghost predicate Fired(s: Loop, t: Timer) {
    t in FiredTimers(s.fired)
  }

  /** The timer is at position k of the queue, or nearer to its head. */
  ghost predicate WithinPosition(s: Loop, t: Timer, k: int) {
    exists i | 0 <= i < |s.pending| && i <= k :: s.pending[i] == t
  }

  /** The timer's fate is settled, or it is within position k. */
  ghost predicate Near(s: Loop, t: Timer, k: int) {
    Fired(s, t) || t in s.cancelled || WithinPosition(s, t, k)
  }

  /** A registration never pushes back a timer that is due. */
  lemma InsertBehindDue(ts: seq<Timer>, x: Timer, i: nat)
    requires i < |ts| && Normal(x.time) && (forall t | t in ts :: Normal(t.time))
    requires forall a, b | 0 <= a < b < |ts| :: Micros(ts[a].time) <= Micros(ts[b].time)
    requires Micros(ts[i].time) <= Micros(x.time)
    ensures |Insert(ts, x)| == |ts| + 1 && Insert(ts, x)[i] == ts[i]
  {
    InsertAt(ts, x);
    var k := InsertPos(ts, x);
    if k < |ts| {
      BeforeIsLess(x.time, ts[k].time);
    }
    assert i < k;
  }

  /** Removing matching timers never pushes back a timer that stays. */
  lemma SelectPullsForward(ts: seq<Timer>, cb: Callback, i: nat)
    requires i < |ts| && !Matches(ts[i], cb)
    ensures exists j | 0 <= j <= i :: j < |Select(ts, cb, false)| && Select(ts, cb, false)[j] == ts[i]
  {
    assert ts == ts[..i + 1] + ts[i + 1..];
    SelectConcat(ts[..i + 1], ts[i + 1..], cb, false);
    assert ts[..i + 1][..i] == ts[..i];
    SelectShrinks(ts[..i], cb, false);
    assert Select(ts, cb, false)[|Select(ts[..i], cb, false)|] == ts[i];
  }

  lemma {:induction false} SelectShrinks(ts: seq<Timer>, cb: Callback, matching: bool)
    ensures |Select(ts, cb, matching)| <= |ts|
  {
    if ts != [] {
      SelectShrinks(ts[..|ts| - 1], cb, matching);
    }
  }

  lemma PendingSorted(s: Loop)
    requires Inv(s)
    ensures forall a, b | 0 <= a < b < |s.pending| :: Micros(s.pending[a].time) <= Micros(s.pending[b].time)
  {
    forall a, b | 0 <= a < b < |s.pending| ensures Micros(s.pending[a].time) <= Micros(s.pending[b].time) {
      assert Less(Timeline(s)[|s.fired| + a], Timeline(s)[|s.fired| + b]);
    }
  }

  lemma RegisterNear(s: Loop, secs: nat, usecs: nat, cb: Callback, wait: nat, t: Timer, k: int)
    requires Inv(s) && Near(s, t, k) && Micros(t.time) <= s.clock
    ensures Near(DoRegister(s, secs, usecs, cb, wait), t, k)
  {
    if WithinPosition(s, t, k) {
      var i :| 0 <= i < |s.pending| && i <= k && s.pending[i] == t;
      var s' := DoRegister(s, secs, usecs, cb, wait);
      PendingSorted(s);
      assert secs * MICROS_PER_SEC >= 0;
      InsertBehindDue(s.pending, s'.registered[|s.registered|], i);
      assert s'.pending[i] == t;
    }
  }

  lemma CancelNear(s: Loop, cb: Callback, t: Timer, k: int)
    requires Near(s, t, k)
    ensures Near(DoCancel(s, cb), t, k)
  {
    if WithinPosition(s, t, k) {
      var i :| 0 <= i < |s.pending| && i <= k && s.pending[i] == t;
      SelectMembers(s.pending, cb, true);
      if !Matches(t, cb) {
        SelectPullsForward(s.pending, cb, i);
      }
    }
  }

  lemma CancelOneNear(s: Loop, cb: Callback, wait: nat, t: Timer, k: int)
    requires Near(s, t, k)
    ensures Near(DoCancelOne(s, cb, wait), t, k)
  {
    var s' := DoCancelOne(s, cb, wait);
    var c := FirstExact(s.pending, cb);
    if WithinPosition(s, t, k) && c < |s.pending| {
      var i :| 0 <= i < |s.pending| && i <= k && s.pending[i] == t;
      if i < c {
        assert s'.pending[i] == t;
      } else if i > c {
        assert s'.pending[i - 1] == t;
      } else {
        assert s'.cancelled[|s.cancelled|] == t;
      }
    }
  }

  lemma PerformNear(s: Loop, op: Op, t: Timer, k: int)
    requires Inv(s) && Near(s, t, k) && Micros(t.time) <= s.clock
    ensures Near(Perform(s, op), t, k) && s.clock <= Perform(s, op).clock
  {
    match op
    case RegisterTimeout(secs, usecs, cb, wait) => RegisterNear(s, secs, usecs, cb, wait, t, k);
    case CancelTimeout(cb) => CancelNear(s, cb, t, k);
    case CancelTimeoutOne(cb, wait) => CancelOneNear(s, cb, wait, t, k);
    case DepleteTimeout(secs, usecs, cb, wait, wait2) => RearmNear(s, true, secs, usecs, cb, wait, wait2, t, k);
    case ReplenishTimeout(secs, usecs, cb, wait, wait2) => RearmNear(s, false, secs, usecs, cb, wait, wait2, t, k);
    case RegisterSock(kind, sock) => SameTimersNear(s, Perform(s, op), t, k);
    case UnregisterSock(kind, fd) => SameTimersNear(s, Perform(s, op), t, k);
    case Terminate =>
  }

  lemma SameTimersNear(s: Loop, s': Loop, t: Timer, k: int)
    requires Near(s, t, k)
    requires s'.pending == s.pending && s'.cancelled == s.cancelled && s'.fired == s.fired
    ensures Near(s', t, k)
  {
  }

  lemma RearmNear(s: Loop, deplete: bool, secs: nat, usecs: nat, cb: Callback, wait: nat, wait2: nat, t: Timer, k: int)
    requires Inv(s) && Near(s, t, k) && Micros(t.time) <= s.clock
    ensures Near(DoRearm(s, deplete, secs, usecs, cb, wait, wait2), t, k)
  {
    var s1 := Tick(s, wait);
    SameTimersNear(s, s1, t, k);
    SameTimersInv(s, s1);
    CancelInv(s1, cb);
    CancelNear(s1, cb, t, k);
    RegisterNear(DoCancel(s1, cb), secs, usecs, cb, wait2, t, k);
  }

  lemma {:induction false} RunOpsNear(s: Loop, ops: seq<Op>, t: Timer, k: int)
    requires Inv(s) && Near(s, t, k) && Micros(t.time) <= s.clock
    ensures Near(RunOps(s, ops), t, k) && s.clock <= RunOps(s, ops).clock
  {
    if ops != [] {
      RunOpsNear(s, ops[..|ops| - 1], t, k);
      RunOpsInv(s, ops[..|ops| - 1]);
      PerformNear(RunOps(s, ops[..|ops| - 1]), ops[|ops| - 1], t, k);
    }
  }

  /** Taking the head off the queue as fired brings every timer one position nearer. */
  lemma TakeHeadNear(s: Loop, s': Loop, at: nat, t: Timer, k: int)
    requires Near(s, t, k) && s.pending != []
    requires s'.pending == s.pending[1..] && s'.cancelled == s.cancelled && s'.fired == s.fired + [Firing(s.pending[0], at)]
    ensures Near(s', t, k - 1)
  {
    assert FiredTimers(s'.fired) == FiredTimers(s.fired) + [s.pending[0]];
    if !Fired(s, t) && t !in s.cancelled {
      var i :| 0 <= i < |s.pending| && i <= k && s.pending[i] == t;
      if i > 0 {
        assert s'.pending[i - 1] == t;
      }
    }
  }

  /** The head of the queue is due whenever a later timer is. */
  lemma HeadIsDue(s: Loop, t: Timer)
    requires Inv(s) && t in s.pending && Micros(t.time) <= s.clock
    ensures Micros(s.pending[0].time) <= s.clock
  {
    var i :| 0 <= i < |s.pending| && s.pending[i] == t;
    PendingSorted(s);
  }

  lemma FireHeadNear(s: Loop, wait: nat, script: seq<Op>, t: Timer, k: int)
    requires Inv(s) && Near(s, t, k) && Micros(t.time) <= s.clock
    ensures var s' := FireHead(s, wait, script); Near(s', t, k - 1) && s.clock <= s'.clock
  {
    if s.pending != [] {
      var s1 := Tick(s, wait);
      if WithinPosition(s, t, k) {
        HeadIsDue(s, t);
      }
      if Micros(s.pending[0].time) <= s1.clock {
        var s2 := s1.(pending := s.pending[1..], fired := s.fired + [Firing(s.pending[0], s1.clock)]);
        TakeHeadNear(s, s2, s1.clock, t, k);
        FireHeadInv(s, wait, []);
        assert FireHead(s, wait, []) == s2;
        RunOpsNear(s2, script, t, k - 1);
      }
    }
  }

  lemma {:induction false} DispatchFromNear(s: Loop, kind: Kind, fds: set<nat>, scripts: seq<seq<Op>>, i: nat, n: nat, t: Timer, k: int)
    requires !GetTable(s, kind).changed && Inv(s) && Near(s, t, k) && Micros(t.time) <= s.clock
    ensures var s' := DispatchFrom(s, kind, fds, scripts, i, n); Near(s', t, k) && s.clock <= s'.clock
    decreases |GetTable(s, kind).socks| - i
  {
    var socks := GetTable(s, kind).socks;
    if i < |socks| {
      if socks[i].sock !in fds {
        DispatchFromNear(s, kind, fds, scripts, i + 1, n, t, k);
      } else {
        var s0 := s.(called := s.called + [Call(kind, socks[i])]);
        SameTimersInv(s, s0);
        SameTimersNear(s, s0, t, k);
        RunOpsNear(s0, Script(scripts, n), t, k);
        RunOpsInv(s0, Script(scripts, n));
        OpsKeepFlag(s0, Script(scripts, n), kind);
        var s1 := CallSock(s, kind, socks[i], Script(scripts, n));
        if !GetTable(s1, kind).changed {
          DispatchFromNear(s1, kind, fds, scripts, i + 1, n + 1, t, k);
        }
      }
    }
  }

  lemma DispatchNear(s: Loop, kind: Kind, fds: set<nat>, scripts: seq<seq<Op>>, t: Timer, k: int)
    requires Inv(s) && Near(s, t, k) && Micros(t.time) <= s.clock
    ensures var s' := Dispatch(s, kind, fds, scripts); Near(s', t, k) && s.clock <= s'.clock && Inv(s')
  {
    SameTimersInv(s, ClearChanged(s, kind));
    SameTimersNear(s, ClearChanged(s, kind), t, k);
    DispatchFromNear(ClearChanged(s, kind), kind, fds, scripts, 0, 0, t, k);
    DispatchInv(s, kind, fds, scripts);
  }

  lemma UpToTimersNear(asked: Loop, p: Pass, t: Timer, k: int)
    requires Inv(asked) && Near(asked, t, k) && Micros(t.time) <= asked.clock
    ensures var s := UpToTimers(asked, p); Near(s, t, k - 1) && asked.clock <= s.clock && Inv(s)
  {
    var s := ClearAllChanged(Tick(asked, p.selectWait));
    SameTimersInv(asked, s);
    SameTimersNear(asked, s, t, k);
    RunOpsNear(s, p.signalOps, t, k);
    RunOpsInv(s, p.signalOps);
    FireHeadNear(RunOps(s, p.signalOps), p.wait1, p.timerOps, t, k);
    UpToTimersInv(asked, p);
  }

  lemma FinishPassNear(asked: Loop, p: Pass, t: Timer, k: int)
    requires Inv(asked) && Near(asked, t, k) && Micros(t.time) <= asked.clock
    ensures var r := FinishPass(asked, p); r.running ==> Near(r.loop, t, k - 1) && asked.clock <= r.loop.clock
  {
    if !p.select.Failed? {
      UpToTimersNear(asked, p, t, k);
      var s := UpToTimers(asked, p);
      if p.select.Ready? {
        var r, w, e := ReadyFds(asked.readers, p.select.r), ReadyFds(asked.writers, p.select.w), ReadyFds(asked.exceptions, p.select.e);
        DispatchNear(s, Read, r, p.readScripts, t, k - 1);
        var s1 := Dispatch(s, Read, r, p.readScripts);
        DispatchNear(s1, Write, w, p.writeScripts, t, k - 1);
        DispatchNear(Dispatch(s1, Write, w, p.writeScripts), Exception, e, p.exceptionScripts, t, k - 1);
      }
    }
  }

  /** One completed pass brings a due timer at least one position nearer, fires it, or finds it cancelled. */
  lemma PassBringsNearer(r: Run, p: Pass, t: Timer, k: int)
    requires r.running && Inv(r.loop) && Near(r.loop, t, k) && Micros(t.time) <= r.loop.clock
    ensures var r' := RunPass(r, p);
      r'.running ==> Near(r'.loop, t, k - 1) && Inv(r'.loop) && Micros(t.time) <= r'.loop.clock
  {
    RunPassInv(r, p);
    if Guard(r.loop) {
      RunOpsNear(r.loop, p.early, t, k);
      RunOpsInv(r.loop, p.early);
      var s := if p.earlyRuns then RunOps(r.loop, p.early) else r.loop;
      SameTimersInv(s, BeforeSelect(s, p));
      SameTimersNear(s, BeforeSelect(s, p), t, k);
      FinishPassNear(BeforeSelect(s, p), p, t, k);
    }
  }

  lemma {:induction false} PassesBringNearer(r: Run, passes: seq<Pass>, t: Timer, k: int)
    requires r.running && Inv(r.loop) && Near(r.loop, t, k) && Micros(t.time) <= r.loop.clock
    ensures var r' := RunPasses(r, passes);
      r'.running ==> Near(r'.loop, t, k - |passes|) && Inv(r'.loop) && Micros(t.time) <= r'.loop.clock
  {
    if passes != [] {
      var n := |passes| - 1;
      PassesBringNearer(r, passes[..n], t, k);
      var r1 := RunPasses(r, passes[..n]);
      if r1.running {
        PassBringsNearer(r1, passes[n], t, k - n);
      }
    }
  }

  /** A due timer at position k of the queue has run, or been cancelled, after k + 1 passes, unless
      the loop has exited: no stream of registrations or re-arming can starve it. */
  lemma DueTimerFires(r: Run, passes: seq<Pass>, k: nat)
    requires r.running && Inv(r.loop) && k < |r.loop.pending| && Micros(r.loop.pending[k].time) <= r.loop.clock
    requires |passes| > k
    ensures var r' := RunPasses(r, passes); var t := r.loop.pending[k];
      Fired(r'.loop, t) || t in r'.loop.cancelled || !r'.running
  {
    PassesBringNearer(r, passes, r.loop.pending[k], k);
  }

  // ---------- when the loop may stop ----------

  predicate QuietScripts(scripts: seq<seq<Op>>) {
    forall i | 0 <= i < |scripts| :: Terminate !in scripts[i]
  }

  /** select does not fail in this pass, and no callback of it asks the loop to terminate. */
  predicate Quiet(p: Pass) {
    && !p.select.Failed?
    && Terminate !in p.early && Terminate !in p.signalOps && Terminate !in p.timerOps
    && QuietScripts(p.readScripts) && QuietScripts(p.writeScripts) && QuietScripts(p.exceptionScripts)
  }

  lemma PerformQuiet(s: Loop, op: Op)
    requires op != Terminate
    ensures Perform(s, op).terminate == s.terminate
  {
    match op
    case RegisterSock(k, sock) =>
    case UnregisterSock(k, fd) =>
    case RegisterTimeout(_, _, _, _) =>
    case CancelTimeout(_) =>
    case CancelTimeoutOne(_, _) =>
    case DepleteTimeout(_, _, _, _, _) =>
    case ReplenishTimeout(_, _, _, _, _) =>
  }

  lemma {:induction false} OpsQuiet(s: Loop, ops: seq<Op>)
    requires Terminate !in ops
    ensures RunOps(s, ops).terminate == s.terminate
  {
    if ops != [] {
      OpsQuiet(s, ops[..|ops| - 1]);
      PerformQuiet(RunOps(s, ops[..|ops| - 1]), ops[|ops| - 1]);
    }
  }

  lemma {:induction false} DispatchFromQuiet(s: Loop, kind: Kind, fds: set<nat>, scripts: seq<seq<Op>>, i: nat, n: nat)
    requires !GetTable(s, kind).changed && QuietScripts(scripts)
    ensures DispatchFrom(s, kind, fds, scripts, i, n).terminate == s.terminate
    decreases |GetTable(s, kind).socks| - i
  {
    var socks := GetTable(s, kind).socks;
    if i < |socks| {
      if socks[i].sock !in fds {
        DispatchFromQuiet(s, kind, fds, scripts, i + 1, n);
      } else {
        var s0 := s.(called := s.called + [Call(kind, socks[i])]);
        OpsQuiet(s0, Script(scripts, n));
        OpsKeepFlag(s0, Script(scripts, n), kind);
        var s1 := CallSock(s, kind, socks[i], Script(scripts, n));
        if !GetTable(s1, kind).changed {
          DispatchFromQuiet(s1, kind, fds, scripts, i + 1, n + 1);
        }
      }
    }
  }

  lemma FireHeadQuiet(s: Loop, wait: nat, script: seq<Op>)
    requires Terminate !in script
    ensures FireHead(s, wait, script).terminate == s.terminate
  {
    if s.pending != [] {
      var s1 := Tick(s, wait);
      OpsQuiet(s1.(pending := s.pending[1..], fired := s.fired + [Firing(s.pending[0], s1.clock)]), script);
    }
  }

  lemma FinishPassQuiet(asked: Loop, p: Pass)
    requires Quiet(p)
    ensures FinishPass(asked, p).running && FinishPass(asked, p).loop.terminate == asked.terminate
  {
    var s0 := ClearAllChanged(Tick(asked, p.selectWait));
    OpsQuiet(s0, p.signalOps);
    FireHeadQuiet(RunOps(s0, p.signalOps), p.wait1, p.timerOps);
    var s := UpToTimers(asked, p);
    if p.select.Ready? {
      var r, w, e := ReadyFds(asked.readers, p.select.r), ReadyFds(asked.writers, p.select.w), ReadyFds(asked.exceptions, p.select.e);
      DispatchFromQuiet(ClearChanged(s, Read), Read, r, p.readScripts, 0, 0);
      var s1 := Dispatch(s, Read, r, p.readScripts);
      DispatchFromQuiet(ClearChanged(s1, Write), Write, w, p.writeScripts, 0, 0);
      var s2 := Dispatch(s1, Write, w, p.writeScripts);
      DispatchFromQuiet(ClearChanged(s2, Exception), Exception, e, p.exceptionScripts, 0, 0);
    }
  }

  /** A loop that nobody asks to terminate stops only when it has nothing left to wait for. */
  lemma QuietPassStops(r: Run, p: Pass)
    requires r.running && !r.loop.terminate && Quiet(p)
    ensures var r' := RunPass(r, p);
      && !r'.loop.terminate
      && (!r'.running <==> r.loop.pending == [] && r.loop.readers.socks == [] && r.loop.writers.socks == []
                           && r.loop.exceptions.socks == [])
      && (!r'.running ==> r' == Run(r.loop, false) && r.loop.pending == [])
  {
    if Guard(r.loop) {
      OpsQuiet(r.loop, p.early);
      var s := if p.earlyRuns then RunOps(r.loop, p.early) else r.loop;
      FinishPassQuiet(BeforeSelect(s, p), p);
    }
  }

  /** Without failures and requests to terminate the bound is unconditional: a due timer at position k has
      run or been cancelled after k + 1 passes. */
  lemma DueTimerSurelyFires(r: Run, passes: seq<Pass>, k: nat)
    requires r.running && Inv(r.loop) && k < |r.loop.pending| && Micros(r.loop.pending[k].time) <= r.loop.clock
    requires |passes| > k && !r.loop.terminate && forall i | 0 <= i < |passes| :: Quiet(passes[i])
    ensures var r' := RunPasses(r, passes); var t := r.loop.pending[k];
      Fired(r'.loop, t) || t in r'.loop.cancelled
  {
    SettledOrNearer(r, passes, r.loop.pending[k], k);
  }

  lemma {:induction false} SettledOrNearer(r: Run, passes: seq<Pass>, t: Timer, k: int)
    requires r.running && Inv(r.loop) && Near(r.loop, t, k) && Micros(t.time) <= r.loop.clock
    requires !r.loop.terminate && forall i | 0 <= i < |passes| :: Quiet(passes[i])
    ensures var r' := RunPasses(r, passes);
      !r'.loop.terminate && Near(r'.loop, t, if r'.running then k - |passes| else -1)
  {
    if passes != [] {
      var n := |passes| - 1;
      SettledOrNearer(r, passes[..n], t, k);
      var r1 := RunPasses(r, passes[..n]);
      if r1.running {
        QuietPassStops(r1, passes[n]);
        PassesBringNearer(r, passes, t, k);
      }
    }
  }

  /** select is told to wake up at the first deadline at the latest. When it times out then, the pass fires
      that timer unless it is cancelled, and fires exactly it if no signal callback runs: the loop neither
      oversleeps nor spins. */
  lemma TimedOutSelectFires(asked: Loop, p: Pass)
    requires Inv(asked) && asked.pending != []
    requires p.selectWait >= Micros(SelectTimeout(asked).tv)
    ensures Micros(SelectTimeout(asked).tv) == if Micros(asked.pending[0].time) <= asked.clock then 0
                                               else Micros(asked.pending[0].time) - asked.clock
    ensures var s := UpToTimers(asked, p); Fired(s, asked.pending[0]) || asked.pending[0] in s.cancelled
    ensures p.signalOps == [] ==> var s := UpToTimers(asked, p);
      |s.fired| == |asked.fired| + 1 && s.fired[|asked.fired|].timer == asked.pending[0]
  {
    DueHeadSettles(asked, p, asked.pending[0]);
    if p.signalOps == [] {
      var s1 := Tick(ClearAllChanged(Tick(asked, p.selectWait)), p.wait1);
      var s2 := s1.(pending := s1.pending[1..], fired := s1.fired + [Firing(s1.pending[0], s1.clock)]);
      OpsKeepFired(s2, p.timerOps);
    }
  }

  lemma DueHeadSettles(asked: Loop, p: Pass, t: Timer)
    requires Inv(asked) && asked.pending != [] && t == asked.pending[0]
    requires Micros(t.time) <= asked.clock + p.selectWait
    ensures var s := UpToTimers(asked, p); Fired(s, t) || t in s.cancelled
  {
    var s := ClearAllChanged(Tick(asked, p.selectWait));
    SameTimersInv(asked, s);
    assert s.pending[0] == t;
    RunOpsNear(s, p.signalOps, t, 0);
    RunOpsInv(s, p.signalOps);
    FireHeadNear(RunOps(s, p.signalOps), p.wait1, p.timerOps, t, 0);
  }

  lemma PerformKeepsFired(s: Loop, op: Op)
    ensures Perform(s, op).fired == s.fired
  {
    match op
    case RegisterSock(k, sock) =>
    case UnregisterSock(k, fd) =>
    case RegisterTimeout(_, _, _, _) =>
    case CancelTimeout(_) =>
    case CancelTimeoutOne(_, _) =>
    case DepleteTimeout(_, _, _, _, _) =>
    case ReplenishTimeout(_, _, _, _, _) =>
    case Terminate =>
  }

  lemma {:induction false} OpsKeepFired(s: Loop, ops: seq<Op>)
    ensures RunOps(s, ops).fired == s.fired
  {
    if ops != [] {
      OpsKeepFired(s, ops[..|ops| - 1]);
      PerformKeepsFired(RunOps(s, ops[..|ops| - 1]), ops[|ops| - 1]);
    }
  }
}
