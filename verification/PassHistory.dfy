/**
 What one pass of the loop runs: which calls into the loop its callbacks make, in which order, which sockets
 it calls, and when it is the last pass.
 */
module PassHistory {
  import opened RelTimes
  import opened LoopState
  import opened SocketDispatch

  /** From s to s' the callbacks have made these calls, and a request to terminate among them has raised the flag. */
  predicate Ran(s: Loop, s': Loop, ops: seq<Op>) {
    s'.ran == s.ran + ops && (s'.terminate <==> s.terminate || Terminate in ops)
  }

  lemma RanThen(a: Loop, b: Loop, c: Loop, x: seq<Op>, y: seq<Op>)
    requires Ran(a, b, x) && Ran(b, c, y)
    ensures Ran(a, c, x + y)
  {
    assert a.ran + x + y == a.ran + (x + y);
  }

  lemma RanNothing(a: Loop, b: Loop)
    requires b.ran == a.ran && b.terminate == a.terminate
    ensures Ran(a, b, [])
  {
    assert a.ran + [] == a.ran;
  }

  lemma PerformRuns(s: Loop, op: Op)
    ensures Ran(s, Perform(s, op), [op])
  {
    match op
    case RegisterSock(k, sock) =>
    case UnregisterSock(k, fd) =>
    case RegisterTimeout(_, _, _, _) =>
    case CancelTimeout(_) =>
    case CancelTimeoutOne(_, _) =>
    case DepleteTimeout(_, _, _, _, _) =>
    case ReplenishTimeout(_, _, _, _, _) =>
    case Terminate =>
  }

  /** A callback makes exactly the calls of its script, in order. */
  lemma {:induction false} ScriptRuns(s: Loop, ops: seq<Op>)
    ensures Ran(s, RunOps(s, ops), ops)
  {
    if ops == [] {
      RanNothing(s, s);
    } else {
      var n := |ops| - 1;
      ScriptRuns(s, ops[..n]);
      PerformRuns(RunOps(s, ops[..n]), ops[n]);
      RanThen(s, RunOps(s, ops[..n]), RunOps(s, ops), ops[..n], [ops[n]]);
      assert ops[..n] + [ops[n]] == ops;
    }
  }

  // ---------- the timer check ----------

  /** The first timer is due when the clock is read after a further wait. */
  predicate Due(s: Loop, wait: nat) {
    s.pending != [] && Micros(s.pending[0].time) <= s.clock + wait
  }

  /** Only a due head is fired: it leaves the queue, and then its callback runs. */
  lemma FireHeadRuns(s: Loop, wait: nat, script: seq<Op>)
    ensures Due(s, wait) ==>
      var s1 := s.(clock := s.clock + wait, pending := s.pending[1..], fired := s.fired + [Firing(s.pending[0], s.clock + wait)]);
      FireHead(s, wait, []) == s1 && FireHead(s, wait, script) == RunOps(s1, script)
    ensures !Due(s, wait) ==> FireHead(s, wait, script) == s.(clock := if s.pending == [] then s.clock else s.clock + wait)
    ensures Ran(s, FireHead(s, wait, script), if Due(s, wait) then script else [])
  {
    if Due(s, wait) {
      var s1 := FireHead(s, wait, []);
      ScriptRuns(s1, script);
    } else {
      RanNothing(s, FireHead(s, wait, script));
    }
  }

  // ---------- the walks ----------

  /** m scripts from the k-th on, one after the other. */
  function Joined(scripts: seq<seq<Op>>, k: nat, m: nat): seq<Op>
    decreases m
  {
    if m == 0 then [] else Script(scripts, k) + Joined(scripts, k + 1, m - 1)
  }

  /** The scripts a walk runs from entry i on, when k callbacks have run. */
  function OpsFrom(socks: seq<Sock>, kind: Kind, fds: set<nat>, scripts: seq<seq<Op>>, i: nat, k: nat): seq<Op> {
    Joined(scripts, k, CallsMade(scripts, kind, socks, k, |ReadySocks(socks, fds, i)|))
  }

  lemma OpsFromNext(socks: seq<Sock>, kind: Kind, fds: set<nat>, scripts: seq<seq<Op>>, i: nat, k: nat)
    requires i < |socks|
    ensures OpsFrom(socks, kind, fds, scripts, i, k) ==
      if socks[i].sock !in fds then OpsFrom(socks, kind, fds, scripts, i + 1, k)
      else if Touches(Script(scripts, k), kind, socks) then Script(scripts, k)
      else Script(scripts, k) + OpsFrom(socks, kind, fds, scripts, i + 1, k + 1)
  {
    var rest := ReadySocks(socks, fds, i + 1);
    if socks[i].sock in fds {
      assert |ReadySocks(socks, fds, i)| == 1 + |rest|;
      JoinedOne(scripts, k);
    }
  }

  lemma JoinedOne(scripts: seq<seq<Op>>, k: nat)
    ensures Joined(scripts, k, 1) == Script(scripts, k)
  {
    assert Joined(scripts, k + 1, 0) == [];
    assert Script(scripts, k) + [] == Script(scripts, k);
  }

  lemma {:induction false} DispatchFromRuns(s: Loop, kind: Kind, fds: set<nat>, scripts: seq<seq<Op>>, i: nat, k: nat)
    requires !GetTable(s, kind).changed
    ensures Ran(s, DispatchFrom(s, kind, fds, scripts, i, k), OpsFrom(GetTable(s, kind).socks, kind, fds, scripts, i, k))
    decreases |GetTable(s, kind).socks| - i
  {
    var socks := GetTable(s, kind).socks;
    if i >= |socks| {
      RanNothing(s, s);
    } else {
      OpsFromNext(socks, kind, fds, scripts, i, k);
      if socks[i].sock !in fds {
        DispatchFromRuns(s, kind, fds, scripts, i + 1, k);
      } else {
        var s1 := CallSock(s, kind, socks[i], Script(scripts, k));
        CalledEntry(s, kind, socks[i], Script(scripts, k));
        CallRuns(s, kind, socks[i], Script(scripts, k));
        if !GetTable(s1, kind).changed {
          DispatchFromRuns(s1, kind, fds, scripts, i + 1, k + 1);
          RanThen(s, s1, DispatchFrom(s1, kind, fds, scripts, i + 1, k + 1), Script(scripts, k),
                  OpsFrom(socks, kind, fds, scripts, i + 1, k + 1));
        }
      }
    }
  }

  lemma CallRuns(s: Loop, kind: Kind, sock: Sock, script: seq<Op>)
    ensures Ran(s, CallSock(s, kind, sock, script), script)
  {
    ScriptRuns(s.(called := s.called + [Call(kind, sock)]), script);
  }

  /** The scripts a walk runs: one for each socket it calls. */
  function WalkOps(s: Loop, kind: Kind, fds: set<nat>, scripts: seq<seq<Op>>): seq<Op> {
    OpsFrom(GetTable(s, kind).socks, kind, fds, scripts, 0, 0)
  }

  /** The calls it makes. */
  function WalkCalls(s: Loop, kind: Kind, fds: set<nat>, scripts: seq<seq<Op>>): seq<Call> {
    var socks := GetTable(s, kind).socks;
    var ready := ReadySocks(socks, fds, 0);
    Calls(kind, ready[..CallsMade(scripts, kind, socks, 0, |ready|)])
  }

  lemma DispatchRuns(s: Loop, kind: Kind, fds: set<nat>, scripts: seq<seq<Op>>)
    ensures Ran(s, Dispatch(s, kind, fds, scripts), WalkOps(s, kind, fds, scripts))
    ensures Dispatch(s, kind, fds, scripts).called == s.called + WalkCalls(s, kind, fds, scripts)
  {
    DispatchFromRuns(ClearChanged(s, kind), kind, fds, scripts, 0, 0);
    DispatchCalls(s, kind, fds, scripts);
  }

  /** What the readers', the writers' and the exceptions' walk run, in this order, each on what the one before left. */
  function ThreeWalksOps(asked: Loop, p: Pass): seq<Op>
    requires p.select.Ready?
  {
    WalkOps(UpToTimers(asked, p), Read, Fds(asked.readers.socks) * p.select.r, p.readScripts)
    + WalkOps(AfterReaders(asked, p), Write, Fds(asked.writers.socks) * p.select.w, p.writeScripts)
    + WalkOps(AfterWriters(asked, p), Exception, Fds(asked.exceptions.socks) * p.select.e, p.exceptionScripts)
  }

  function ThreeWalksCalls(asked: Loop, p: Pass): seq<Call>
    requires p.select.Ready?
  {
    WalkCalls(UpToTimers(asked, p), Read, Fds(asked.readers.socks) * p.select.r, p.readScripts)
    + WalkCalls(AfterReaders(asked, p), Write, Fds(asked.writers.socks) * p.select.w, p.writeScripts)
    + WalkCalls(AfterWriters(asked, p), Exception, Fds(asked.exceptions.socks) * p.select.e, p.exceptionScripts)
  }

  lemma WalksRun(asked: Loop, p: Pass)
    requires p.select.Ready?
    ensures var s := UpToTimers(asked, p);
      && Ran(s, DispatchAll(s, asked, p), ThreeWalksOps(asked, p))
      && DispatchAll(s, asked, p).called == s.called + ThreeWalksCalls(asked, p)
  {
    var s, s1, s2 := UpToTimers(asked, p), AfterReaders(asked, p), AfterWriters(asked, p);
    var r, w, e := ReadyFds(asked.readers, p.select.r), ReadyFds(asked.writers, p.select.w), ReadyFds(asked.exceptions, p.select.e);
    DispatchRuns(s, Read, r, p.readScripts);
    DispatchRuns(s1, Write, w, p.writeScripts);
    DispatchRuns(s2, Exception, e, p.exceptionScripts);
    var s3 := Dispatch(s2, Exception, e, p.exceptionScripts);
    RanThrice(s, s1, s2, s3, WalkOps(s, Read, r, p.readScripts), WalkOps(s1, Write, w, p.writeScripts),
              WalkOps(s2, Exception, e, p.exceptionScripts));
    CalledThrice(s.called, WalkCalls(s, Read, r, p.readScripts), WalkCalls(s1, Write, w, p.writeScripts),
                 WalkCalls(s2, Exception, e, p.exceptionScripts));
  }

  lemma RanThrice(a: Loop, b: Loop, c: Loop, d: Loop, x: seq<Op>, y: seq<Op>, z: seq<Op>)
    requires Ran(a, b, x) && Ran(b, c, y) && Ran(c, d, z)
    ensures Ran(a, d, x + y + z)
  {
    RanThen(a, b, c, x, y);
    RanThen(a, c, d, x + y, z);
  }

  lemma CalledThrice(s: seq<Call>, x: seq<Call>, y: seq<Call>, z: seq<Call>)
    ensures s + x + y + z == s + (x + y + z)
  {
  }

  // ---------- a whole pass ----------

  predicate NothingLeft(s: Loop) {
    s.pending == [] && s.readers.socks == [] && s.writers.socks == [] && s.exceptions.socks == []
  }

  /** The loop when the timers are checked. */
  function AtTimerCheck(asked: Loop, p: Pass): Loop {
    RunOps(ClearAllChanged(Tick(asked, p.selectWait)), p.signalOps)
  }

  /** What a pass runs after select: the signal callbacks, the first timer's callback if and only if it is due then,
      and the sockets' callbacks if select reported any and no table was changed meanwhile. */
  function AfterSelectOps(asked: Loop, p: Pass): seq<Op> {
    if p.select.Failed? then []
    else
      p.signalOps
      + (if Due(AtTimerCheck(asked, p), p.wait1) then p.timerOps else [])
      + if p.select.Ready? && Unedited(asked, UpToTimers(asked, p)) then ThreeWalksOps(asked, p) else []
  }

  lemma FinishPassRuns(asked: Loop, p: Pass)
    ensures Ran(asked, FinishPass(asked, p).loop, AfterSelectOps(asked, p))
    ensures !p.select.Failed? ==>
      FinishPass(asked, p).loop.called
      == asked.called + if p.select.Ready? && Unedited(asked, UpToTimers(asked, p)) then ThreeWalksCalls(asked, p) else []
  {
    if p.select.Failed? {
      RanNothing(asked, FinishPass(asked, p).loop);
    } else {
      var s0 := ClearAllChanged(Tick(asked, p.selectWait));
      var s1, s2 := AtTimerCheck(asked, p), UpToTimers(asked, p);
      var timer := if Due(s1, p.wait1) then p.timerOps else [];
      RanNothing(asked, s0);
      ScriptRuns(s0, p.signalOps);
      assert Ran(asked, s1, p.signalOps);
      FireHeadRuns(s1, p.wait1, p.timerOps);
      RanThen(asked, s1, s2, p.signalOps, timer);
      ReadersWalkIsFresh(asked, p);
      UpToTimersCalls(asked, p);
      if p.select.Ready? && Unedited(asked, s2) {
        WalksRun(asked, p);
        RanThen(asked, s2, DispatchAll(s2, asked, p), p.signalOps + timer, ThreeWalksOps(asked, p));
      } else {
        assert p.signalOps + timer + [] == p.signalOps + timer;
      }
    }
  }

  /** The loop as it is when a pass builds its descriptor sets. */
  function Asked(r: Run, p: Pass): Loop {
    BeforeSelect(RunOps(r.loop, if p.earlyRuns then p.early else []), p)
  }

  /** Everything a pass of a running loop runs. */
  function PassOps(r: Run, p: Pass): seq<Op> {
    if !r.running || r.loop.terminate || NothingLeft(r.loop) then []
    else if p.earlyRuns && Terminate in p.early then p.early
    else (if p.earlyRuns then p.early else []) + AfterSelectOps(Asked(r, p), p)
  }

  /** A pass makes exactly these calls into the loop, in this order; it is the last one if and only if the loop was
      asked to terminate before, nothing is registered, an early signal callback asks for it, or select
      fails. A request to terminate in a later callback of the pass leaves the flag up. */
  lemma PassRuns(r: Run, p: Pass)
    ensures RunPass(r, p).loop.ran == r.loop.ran + PassOps(r, p)
    ensures r.running ==> (!RunPass(r, p).running <==>
      r.loop.terminate || NothingLeft(r.loop) || (p.earlyRuns && Terminate in p.early) || p.select.Failed?)
    ensures r.running && RunPass(r, p).running ==> (RunPass(r, p).loop.terminate <==> Terminate in PassOps(r, p))
    ensures r.running && !RunPass(r, p).running && !p.select.Failed? ==> !RunPass(r, p).loop.terminate
  {
    if r.running && !r.loop.terminate && !NothingLeft(r.loop) {
      var early := if p.earlyRuns then p.early else [];
      var s, asked := RunOps(r.loop, early), Asked(r, p);
      ScriptRuns(r.loop, early);
      FinishPassRuns(asked, p);
      assert Ran(r.loop, asked, early);
      RanThen(r.loop, asked, FinishPass(asked, p).loop, early, AfterSelectOps(asked, p));
    }
  }

  /** A request to terminate in any callback of a pass ends the loop: the pass after it does nothing. */
  lemma TerminateEnds(r: Run, p: Pass, q: Pass)
    ensures Terminate in PassOps(r, p) ==> EndsQuietly(RunPass(r, p), q)
  {
    PassRuns(r, p);
    var r1 := RunPass(r, p);
    if r1.running && r1.loop.terminate {
      assert RunPass(r1, q) == Run(r1.loop.(terminate := false), false);
    }
  }

  /** The loop has stopped, or stops in this pass without running anything and takes the flag down. */
  predicate EndsQuietly(r: Run, q: Pass) {
    var r' := RunPass(r, q);
    !r'.running && r'.loop.ran == r.loop.ran && (r.running ==> !r'.loop.terminate)
  }

  /** A socket that select was asked about and reported is called, for exceptions as for the other kinds, if its table is
      unchanged when its walk begins and no callback called before it in the walk touches that table. */
  lemma ReportedIsCalled(s: Loop, kind: Kind, fds: set<nat>, scripts: seq<seq<Op>>, j: nat)
    requires j < |ReadySocks(GetTable(s, kind).socks, fds, 0)|
    ensures var x := ReadySocks(GetTable(s, kind).socks, fds, 0)[j];
      Untouched(scripts, kind, GetTable(s, kind).socks, j) ==> Call(kind, x) in Dispatch(s, kind, fds, scripts).called
  {
    var socks := GetTable(s, kind).socks;
    var ready := ReadySocks(socks, fds, 0);
    var called := Dispatch(s, kind, fds, scripts).called;
    WalkCallsAre(s, kind, fds, scripts);
    CallsMadeIs(scripts, kind, socks, |ready|, j);
    if Untouched(scripts, kind, socks, j) {
      assert called[|s.called| + j] == Call(kind, ready[j]);
    }
  }

  /** Every reported exception socket is called if no callback before it changes the table of exceptions. */
  lemma ReportedExceptionIsCalled(asked: Loop, p: Pass, x: Sock)
    requires p.select.Ready? && x in asked.exceptions.socks && x.sock in p.select.e
    requires Unedited(asked, UpToTimers(asked, p)) && !AfterWriters(asked, p).exceptions.changed
    requires forall i | 0 <= i < |p.exceptionScripts| :: !Touches(p.exceptionScripts[i], Exception, asked.exceptions.socks)
    ensures Call(Exception, x) in FinishPass(asked, p).loop.called
  {
    ReadersWalkIsFresh(asked, p);
    LaterWalksFreshIff(asked, p);
    var s, fds := AfterWriters(asked, p), ReadyFds(asked.exceptions, p.select.e);
    var socks := asked.exceptions.socks;
    var i :| 0 <= i < |socks| && socks[i] == x;
    assert x.sock in fds;
    var j := ReadyHas(socks, fds, 0, i);
    assert forall k: nat :: !Touches(Script(p.exceptionScripts, k), Exception, socks);
    ReportedIsCalled(s, Exception, fds, p.exceptionScripts, j);
  }

  lemma {:induction false} ReadyHas(socks: seq<Sock>, fds: set<nat>, from: nat, i: nat) returns (j: nat)
    requires from <= i < |socks| && socks[i].sock in fds
    ensures j < |ReadySocks(socks, fds, from)| && ReadySocks(socks, fds, from)[j] == socks[i]
    decreases i - from
  {
    if from == i {
      j := 0;
    } else {
      j := ReadyHas(socks, fds, from + 1, i);
      if socks[from].sock in fds {
        j := j + 1;
      }
    }
  }
}
