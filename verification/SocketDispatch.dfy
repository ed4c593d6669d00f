/**
 Which socket callbacks a pass of the loop makes, although a callback may change the very table
 that is being walked, and which descriptor sets the three walks may rely on.
 */
module SocketDispatch {
  import opened LoopState

  /** The entries select reported as ready, from position i on, in table order. */
  function ReadySocks(socks: seq<Sock>, fds: set<nat>, i: nat): (r: seq<Sock>)
    ensures forall x :: x in r ==> x in socks && x.sock in fds
    decreases |socks| - i
  {
    if i >= |socks| then []
    else (if socks[i].sock in fds then [socks[i]] else []) + ReadySocks(socks, fds, i + 1)
  }

  /** The script registers a socket of this kind, or removes one the table holds. */
  predicate Touches(ops: seq<Op>, kind: Kind, socks: seq<Sock>) {
    exists i | 0 <= i < |ops| :: TouchesOne(ops[i], kind, socks)
  }

  predicate TouchesOne(op: Op, kind: Kind, socks: seq<Sock>) {
    match op
    case RegisterSock(k, _) => k == kind
    case UnregisterSock(k, fd) => k == kind && fd in Fds(socks)
    case _ => false
  }

  /** How many of n ready entries are called: up to and including the first whose script touches the table. */
  function CallsMade(scripts: seq<seq<Op>>, kind: Kind, socks: seq<Sock>, k: nat, n: nat): (m: nat)
    ensures m <= n && (n > 0 ==> m > 0)
    ensures forall j | k <= j < k + m - 1 :: !Touches(Script(scripts, j), kind, socks)
    ensures m < n ==> Touches(Script(scripts, k + m - 1), kind, socks)
    decreases n
  {
    if n == 0 then 0
    else if Touches(Script(scripts, k), kind, socks) then 1
    else 1 + CallsMade(scripts, kind, socks, k + 1, n - 1)
  }

  function Calls(kind: Kind, socks: seq<Sock>): seq<Call> {
    seq(|socks|, i requires 0 <= i < |socks| => Call(kind, socks[i]))
  }

  // ---------- callbacks and tables ----------

  lemma PerformTouches(s: Loop, op: Op, kind: Kind)
    ensures var t, t' := GetTable(s, kind), GetTable(Perform(s, op), kind);
      if TouchesOne(op, kind, t.socks) then t'.edits == t.edits + 1 else t' == t
    ensures Perform(s, op).called == s.called
  {
    match op
    case RegisterSock(k, sock) =>
    case UnregisterSock(k, fd) =>
      var socks := GetTable(s, k).socks;
      var i := FindSock(socks, fd);
      assert fd in Fds(socks) <==> i < |socks|;
    case RegisterTimeout(_, _, _, _) =>
    case CancelTimeout(_) =>
    case CancelTimeoutOne(_, _) =>
    case DepleteTimeout(_, _, _, _, _) =>
    case ReplenishTimeout(_, _, _, _, _) =>
    case Terminate =>
  }

  lemma TouchesLast(ops: seq<Op>, kind: Kind, socks: seq<Sock>)
    requires ops != []
    ensures var n := |ops| - 1;
      Touches(ops, kind, socks) <==> Touches(ops[..n], kind, socks) || TouchesOne(ops[n], kind, socks)
  {
    var n := |ops| - 1;
    if Touches(ops[..n], kind, socks) {
      var i :| 0 <= i < n && TouchesOne(ops[..n][i], kind, socks);
      assert TouchesOne(ops[i], kind, socks);
    }
    if Touches(ops, kind, socks) {
      var i :| 0 <= i < |ops| && TouchesOne(ops[i], kind, socks);
      assert i == n || TouchesOne(ops[..n][i], kind, socks);
    }
  }

  /** A script changes a table exactly if it touches the table as it was when the script began. */
  lemma {:induction false} ScriptTouches(s: Loop, ops: seq<Op>, kind: Kind)
    ensures var t, t' := GetTable(s, kind), GetTable(RunOps(s, ops), kind);
      if Touches(ops, kind, t.socks) then t'.edits > t.edits else t' == t
    ensures RunOps(s, ops).called == s.called
  {
    if ops != [] {
      var n := |ops| - 1;
      ScriptTouches(s, ops[..n], kind);
      PerformTouches(RunOps(s, ops[..n]), ops[n], kind);
      TouchesLast(ops, kind, GetTable(s, kind).socks);
    }
  }

  // ---------- one walk ----------

  /** The calls a walk makes from entry i on, when k callbacks have run. */
  function CallsFrom(socks: seq<Sock>, kind: Kind, fds: set<nat>, scripts: seq<seq<Op>>, i: nat, k: nat): seq<Call> {
    var ready := ReadySocks(socks, fds, i);
    Calls(kind, ready[..CallsMade(scripts, kind, socks, k, |ready|)])
  }

  lemma CallsCons(kind: Kind, x: Sock, rest: seq<Sock>)
    ensures Calls(kind, [x] + rest) == [Call(kind, x)] + Calls(kind, rest)
  {
  }

  lemma CallsFromSkip(socks: seq<Sock>, kind: Kind, fds: set<nat>, scripts: seq<seq<Op>>, i: nat, k: nat)
    requires i < |socks| && socks[i].sock !in fds
    ensures CallsFrom(socks, kind, fds, scripts, i, k) == CallsFrom(socks, kind, fds, scripts, i + 1, k)
  {
    assert ReadySocks(socks, fds, i) == ReadySocks(socks, fds, i + 1);
  }

  lemma CallsFromCall(socks: seq<Sock>, kind: Kind, fds: set<nat>, scripts: seq<seq<Op>>, i: nat, k: nat)
    requires i < |socks| && socks[i].sock in fds
    ensures CallsFrom(socks, kind, fds, scripts, i, k) == [Call(kind, socks[i])]
      + (if Touches(Script(scripts, k), kind, socks) then [] else CallsFrom(socks, kind, fds, scripts, i + 1, k + 1))
  {
    var ready, rest := ReadySocks(socks, fds, i), ReadySocks(socks, fds, i + 1);
    assert ready == [socks[i]] + rest;
    var m := if Touches(Script(scripts, k), kind, socks) then 0 else CallsMade(scripts, kind, socks, k + 1, |rest|);
    assert ready[..1 + m] == [socks[i]] + rest[..m];
    CallsCons(kind, socks[i], rest[..m]);
  }

  lemma {:induction false} DispatchFromCalls(s: Loop, kind: Kind, fds: set<nat>, scripts: seq<seq<Op>>, i: nat, k: nat)
    requires !GetTable(s, kind).changed
    ensures DispatchFrom(s, kind, fds, scripts, i, k).called
         == s.called + CallsFrom(GetTable(s, kind).socks, kind, fds, scripts, i, k)
    decreases |GetTable(s, kind).socks| - i
  {
    var socks := GetTable(s, kind).socks;
    if i < |socks| {
      if socks[i].sock !in fds {
        CallsFromSkip(socks, kind, fds, scripts, i, k);
        DispatchFromCalls(s, kind, fds, scripts, i + 1, k);
      } else {
        CallsFromCall(socks, kind, fds, scripts, i, k);
        CalledEntry(s, kind, socks[i], Script(scripts, k));
        var s1 := CallSock(s, kind, socks[i], Script(scripts, k));
        if !GetTable(s1, kind).changed {
          DispatchFromCalls(s1, kind, fds, scripts, i + 1, k + 1);
        }
      }
    } else {
      assert CallsFrom(socks, kind, fds, scripts, i, k) == [];
    }
  }

  /** One callback: what it records, and when it leaves the table alone. */
  lemma CalledEntry(s: Loop, kind: Kind, sock: Sock, script: seq<Op>)
    requires !GetTable(s, kind).changed
    ensures var t, s1 := GetTable(s, kind), CallSock(s, kind, sock, script);
      && s1.called == s.called + [Call(kind, sock)]
      && (GetTable(s1, kind).changed <==> Touches(script, kind, t.socks))
      && (!GetTable(s1, kind).changed ==> GetTable(s1, kind) == t)
  {
    var s0 := s.(called := s.called + [Call(kind, sock)]);
    ScriptTouches(s0, script, kind);
    OpsKeepFlag(s0, script, kind);
  }

  /** One walk calls, in table order, exactly the ready entries the table held when the walk began,
      up to and including the first whose callback adds to that table or removes from it. */
  lemma DispatchCalls(s: Loop, kind: Kind, fds: set<nat>, scripts: seq<seq<Op>>)
    ensures var socks := GetTable(s, kind).socks;
      var ready := ReadySocks(socks, fds, 0);
      Dispatch(s, kind, fds, scripts).called
      == s.called + Calls(kind, ready[..CallsMade(scripts, kind, socks, 0, |ready|)])
  {
    DispatchFromCalls(ClearChanged(s, kind), kind, fds, scripts, 0, 0);
  }

  lemma {:induction false} DispatchFromFlag(s: Loop, kind: Kind, fds: set<nat>, scripts: seq<seq<Op>>, i: nat, k: nat, other: Kind)
    requires !GetTable(s, kind).changed
    ensures FlagFollows(GetTable(s, other), GetTable(DispatchFrom(s, kind, fds, scripts, i, k), other))
    decreases |GetTable(s, kind).socks| - i
  {
    var socks := GetTable(s, kind).socks;
    if i < |socks| {
      if socks[i].sock !in fds {
        DispatchFromFlag(s, kind, fds, scripts, i + 1, k, other);
      } else {
        var s0 := s.(called := s.called + [Call(kind, socks[i])]);
        var s1 := CallSock(s, kind, socks[i], Script(scripts, k));
        OpsKeepFlag(s0, Script(scripts, k), kind);
        OpsKeepFlag(s0, Script(scripts, k), other);
        if !GetTable(s1, kind).changed {
          DispatchFromFlag(s1, kind, fds, scripts, i + 1, k + 1, other);
        }
      }
    }
  }

  // ---------- the walks of one pass ----------

  lemma FireHeadFlag(s: Loop, wait: nat, script: seq<Op>, kind: Kind)
    ensures FlagFollows(GetTable(s, kind), GetTable(FireHead(s, wait, script), kind))
  {
    if s.pending != [] {
      var s1 := Tick(s, wait);
      OpsKeepFlag(s1.(pending := s.pending[1..], fired := s.fired + [Firing(s.pending[0], s1.clock)]), script, kind);
    }
  }

  /** No table was changed between the building of the descriptor sets and s. */
  predicate Unedited(asked: Loop, s: Loop) {
    && s.readers.edits == asked.readers.edits
    && s.writers.edits == asked.writers.edits
    && s.exceptions.edits == asked.exceptions.edits
  }

  lemma UpToTimersFlag(asked: Loop, p: Pass, kind: Kind)
    ensures var t, t' := GetTable(asked, kind), GetTable(UpToTimers(asked, p), kind);
      (t'.changed <==> t'.edits != t.edits) && (!t'.changed ==> t'.socks == t.socks)
  {
    var s := ClearAllChanged(Tick(asked, p.selectWait));
    OpsKeepFlag(s, p.signalOps, kind);
    FireHeadFlag(RunOps(s, p.signalOps), p.wait1, p.timerOps, kind);
  }

  /** The walks are skipped exactly if a signal or timer callback of this pass changed a table, even
      back to what it was; otherwise the first walk finds each table as select was asked about it. */
  lemma ReadersWalkIsFresh(asked: Loop, p: Pass)
    ensures var s := UpToTimers(asked, p);
      && (AnyChanged(s) <==> !Unedited(asked, s))
      && (!AnyChanged(s) ==> s.readers.socks == asked.readers.socks && s.writers.socks == asked.writers.socks
                             && s.exceptions.socks == asked.exceptions.socks)
  {
    UpToTimersFlag(asked, p, Read);
    UpToTimersFlag(asked, p, Write);
    UpToTimersFlag(asked, p, Exception);
  }

  /** The loop as the writers' walk finds it. */
  function AfterReaders(asked: Loop, p: Pass): Loop
    requires p.select.Ready?
  {
    Dispatch(UpToTimers(asked, p), Read, ReadyFds(asked.readers, p.select.r), p.readScripts)
  }

  function AfterWriters(asked: Loop, p: Pass): Loop
    requires p.select.Ready?
  {
    Dispatch(AfterReaders(asked, p), Write, ReadyFds(asked.writers, p.select.w), p.writeScripts)
  }

  /** The later walks get no such check: nobody has changed their table since select was asked about it if and
      only if the flag the walk is about to clear is still down. */
  lemma LaterWalksFreshIff(asked: Loop, p: Pass)
    requires p.select.Ready? && !AnyChanged(UpToTimers(asked, p))
    ensures var s := AfterReaders(asked, p);
      (s.writers.edits == asked.writers.edits <==> !s.writers.changed)
      && (!s.writers.changed ==> s.writers.socks == asked.writers.socks)
    ensures var s := AfterWriters(asked, p);
      var s0 := AfterReaders(asked, p);
      (s.exceptions.edits == asked.exceptions.edits <==> !s.exceptions.changed)
      && (!s.exceptions.changed ==> s.exceptions.socks == asked.exceptions.socks)
  {
    ReadersWalkIsFresh(asked, p);
    var s := UpToTimers(asked, p);
    var r, w := ReadyFds(asked.readers, p.select.r), ReadyFds(asked.writers, p.select.w);
    DispatchFromFlag(ClearChanged(s, Read), Read, r, p.readScripts, 0, 0, Write);
    DispatchFromFlag(ClearChanged(s, Read), Read, r, p.readScripts, 0, 0, Exception);
    DispatchFromFlag(ClearChanged(AfterReaders(asked, p), Write), Write, w, p.writeScripts, 0, 0, Exception);
  }

  /** A walk comes to a ready entry that is none of those asked about, before any script ends the walk. It can
      be looked up before the walk begins. */
  ghost predicate ReachesUnasked(s: Loop, kind: Kind, fds: set<nat>, scripts: seq<seq<Op>>, asked: seq<Sock>) {
    var socks := GetTable(s, kind).socks;
    var ready := ReadySocks(socks, fds, 0);
    exists j | 0 <= j < |ready| && ready[j] !in asked :: Untouched(scripts, kind, socks, j)
  }

  /** None of the first j scripts touches the table. */
  predicate Untouched(scripts: seq<seq<Op>>, kind: Kind, socks: seq<Sock>, j: nat) {
    forall i | 0 <= i < j :: !Touches(Script(scripts, i), kind, socks)
  }

  lemma CallsMadeIs(scripts: seq<seq<Op>>, kind: Kind, socks: seq<Sock>, n: nat, j: nat)
    ensures j < CallsMade(scripts, kind, socks, 0, n) <==> j < n && Untouched(scripts, kind, socks, j)
  {
    var m := CallsMade(scripts, kind, socks, 0, n);
    if m <= j < n {
      assert Touches(Script(scripts, m - 1), kind, socks);
    }
  }

  /** The calls that were made since the first n. */
  ghost predicate CallsOf(called: seq<Call>, n: nat, kind: Kind, fds: set<nat>) {
    n <= |called| && forall i | n <= i < |called| :: called[i].kind == kind && called[i].sock.sock in fds
  }

  /** The calls of a walk, one by one. */
  lemma WalkCallsAre(s: Loop, kind: Kind, fds: set<nat>, scripts: seq<seq<Op>>)
    ensures var socks, called := GetTable(s, kind).socks, Dispatch(s, kind, fds, scripts).called;
      var ready := ReadySocks(socks, fds, 0);
      && s.called <= called && |called| == |s.called| + CallsMade(scripts, kind, socks, 0, |ready|)
      && forall i | |s.called| <= i < |called| :: called[i] == Call(kind, ready[i - |s.called|])
  {
    DispatchCalls(s, kind, fds, scripts);
  }

  /** A walk calls only entries that were asked about if and only if it reaches no other. */
  lemma WalkCallsOnlyAskedIff(s: Loop, kind: Kind, fds: set<nat>, scripts: seq<seq<Op>>, asked: seq<Sock>)
    ensures var called := Dispatch(s, kind, fds, scripts).called;
      && s.called <= called && CallsOf(called, |s.called|, kind, fds)
      && ((forall i | |s.called| <= i < |called| :: called[i].sock in asked) <==> !ReachesUnasked(s, kind, fds, scripts, asked))
  {
    WalkCallsAre(s, kind, fds, scripts);
    var socks, called := GetTable(s, kind).socks, Dispatch(s, kind, fds, scripts).called;
    var ready := ReadySocks(socks, fds, 0);
    forall j | 0 <= j < |ready|
      ensures ready[j].sock in fds && (Untouched(scripts, kind, socks, j) <==> |s.called| + j < |called|)
    {
      assert ready[j] in ready;
      CallsMadeIs(scripts, kind, socks, |ready|, j);
    }
    if j :| 0 <= j < |ready| && ready[j] !in asked && Untouched(scripts, kind, socks, j) {
      assert called[|s.called| + j].sock !in asked;
    }
  }

  /** The call is for an entry that select was asked about and reported. */
  predicate Reported(asked: Loop, p: Pass, c: Call)
    requires p.select.Ready?
  {
    match c.kind
    case Read => c.sock in asked.readers.socks && c.sock.sock in p.select.r
    case Write => c.sock in asked.writers.socks && c.sock.sock in p.select.w
    case Exception => c.sock in asked.exceptions.socks && c.sock.sock in p.select.e
  }

  /** The writers' walk reaches an entry that select was not asked about, and likewise for the exceptions. */
  ghost predicate ReachesUnaskedWriter(asked: Loop, p: Pass)
    requires p.select.Ready?
  {
    ReachesUnasked(AfterReaders(asked, p), Write, ReadyFds(asked.writers, p.select.w), p.writeScripts, asked.writers.socks)
  }

  ghost predicate ReachesUnaskedException(asked: Loop, p: Pass)
    requires p.select.Ready?
  {
    ReachesUnasked(AfterWriters(asked, p), Exception, ReadyFds(asked.exceptions, p.select.e), p.exceptionScripts,
                   asked.exceptions.socks)
  }

  /** Every socket callback of a pass is for an entry that select was asked about and reported if and only if
      neither of the later walks reaches another one. Tables whose flag is down have no such entry. */
  lemma FreshPassCallsOnlyReported(asked: Loop, p: Pass)
    requires p.select.Ready? && !AnyChanged(UpToTimers(asked, p))
    ensures var called := FinishPass(asked, p).loop.called;
      && asked.called <= called
      && ((forall i | |asked.called| <= i < |called| :: Reported(asked, p, called[i]))
          <==> !ReachesUnaskedWriter(asked, p) && !ReachesUnaskedException(asked, p))
    ensures !AfterReaders(asked, p).writers.changed ==> !ReachesUnaskedWriter(asked, p)
    ensures !AfterWriters(asked, p).exceptions.changed ==> !ReachesUnaskedException(asked, p)
  {
    var s, s1, s2 := UpToTimers(asked, p), AfterReaders(asked, p), AfterWriters(asked, p);
    var r, w, e := ReadyFds(asked.readers, p.select.r), ReadyFds(asked.writers, p.select.w), ReadyFds(asked.exceptions, p.select.e);
    ReadersWalkIsFresh(asked, p);
    LaterWalksFreshIff(asked, p);
    UpToTimersCalls(asked, p);
    WalkCallsOnlyAskedIff(s, Read, r, p.readScripts, asked.readers.socks);
    WalkCallsOnlyAskedIff(s1, Write, w, p.writeScripts, asked.writers.socks);
    WalkCallsOnlyAskedIff(s2, Exception, e, p.exceptionScripts, asked.exceptions.socks);
    ReachesOnlyOwn(s, Read, r, p.readScripts);
    var s3 := Dispatch(s2, Exception, e, p.exceptionScripts);
    assert s3 == FinishPass(asked, p).loop;
    ThreeWalks(asked, p, s.called, s1.called, s2.called, s3.called);
    ReachesOnlyOwn(s1, Write, w, p.writeScripts);
    ReachesOnlyOwn(s2, Exception, e, p.exceptionScripts);
  }

  lemma ReachesOnlyOwn(s: Loop, kind: Kind, fds: set<nat>, scripts: seq<seq<Op>>)
    ensures !ReachesUnasked(s, kind, fds, scripts, GetTable(s, kind).socks)
  {
    var ready := ReadySocks(GetTable(s, kind).socks, fds, 0);
    assert forall j | 0 <= j < |ready| :: ready[j] in ready;
  }

  /** What holds of the calls of all three walks, from what holds of each. */
  lemma ThreeWalks(asked: Loop, p: Pass, c0: seq<Call>, c1: seq<Call>, c2: seq<Call>, c3: seq<Call>)
    requires p.select.Ready? && c0 <= c1 <= c2 <= c3
    requires CallsOf(c1, |c0|, Read, ReadyFds(asked.readers, p.select.r))
    requires CallsOf(c2, |c1|, Write, ReadyFds(asked.writers, p.select.w))
    requires CallsOf(c3, |c2|, Exception, ReadyFds(asked.exceptions, p.select.e))
    ensures (forall i | |c0| <= i < |c3| :: Reported(asked, p, c3[i]))
      <==> && (forall i | |c0| <= i < |c1| :: c1[i].sock in asked.readers.socks)
           && (forall i | |c1| <= i < |c2| :: c2[i].sock in asked.writers.socks)
           && (forall i | |c2| <= i < |c3| :: c3[i].sock in asked.exceptions.socks)
  {
    assert forall i | |c0| <= i < |c1| :: c3[i] == c1[i];
    assert forall i | |c1| <= i < |c2| :: c3[i] == c2[i];
  }

  lemma UpToTimersCalls(asked: Loop, p: Pass)
    ensures UpToTimers(asked, p).called == asked.called
  {
    var s := ClearAllChanged(Tick(asked, p.selectWait));
    ScriptTouches(s, p.signalOps, Read);
    var s0 := RunOps(s, p.signalOps);
    if s0.pending != [] {
      var s1 := Tick(s0, p.wait1);
      ScriptTouches(s1.(pending := s0.pending[1..], fired := s0.fired + [Firing(s0.pending[0], s1.clock)]), p.timerOps, Read);
    }
  }

  lemma TwoOps(s: Loop, a: Op, b: Op)
    ensures RunOps(s, [a, b]) == Perform(Perform(s, a), b)
  {
    assert [a, b][..1] == [a] && [a][..0] == [];
    assert RunOps(s, [a]) == Perform(s, a);
  }

  /** A reader callback closes descriptor 7 and opens it again for another writer. The writers' walk
      then calls the new entry, on readiness that select reported for the old one. */
  lemma StaleWriterCall(clock: nat)
    ensures var cb, cb' := Callback(1, 0, 0), Callback(2, 0, 0);
      var asked := RunOps(Init(clock), [RegisterSock(Read, Sock(5, cb)), RegisterSock(Write, Sock(7, cb))]);
      var p := Pass([], false, 0, 0, Ready({5}, {7}, {}), [], 0, [],
                    [[UnregisterSock(Write, 7), RegisterSock(Write, Sock(7, cb'))]], [], []);
      && !AnyChanged(UpToTimers(asked, p))
      && Call(Write, Sock(7, cb')) in FinishPass(asked, p).loop.called
      && Sock(7, cb') !in asked.writers.socks
  {
    var cb, cb' := Callback(1, 0, 0), Callback(2, 0, 0);
    var setup := [RegisterSock(Read, Sock(5, cb)), RegisterSock(Write, Sock(7, cb))];
    var swap := [UnregisterSock(Write, 7), RegisterSock(Write, Sock(7, cb'))];
    var asked := RunOps(Init(clock), setup);
    TwoOps(Init(clock), setup[0], setup[1]);
    assert asked.readers.socks == [Sock(5, cb)] && asked.writers.socks == [Sock(7, cb)];
    var p := Pass([], false, 0, 0, Ready({5}, {7}, {}), [], 0, [], [swap], [], []);
    var s := UpToTimers(asked, p);
    ReadersWalkIsFresh(asked, p);
    assert 5 in ReadyFds(asked.readers, p.select.r) by { assert asked.readers.socks[0].sock == 5; }
    assert 7 in ReadyFds(asked.writers, p.select.w) by { assert asked.writers.socks[0].sock == 7; }
    StaleWriterWalk(s, asked, p, cb, cb');
  }

  lemma StaleWriterWalk(s: Loop, asked: Loop, p: Pass, cb: Callback, cb': Callback)
    requires p.select.Ready? && p.readScripts == [[UnregisterSock(Write, 7), RegisterSock(Write, Sock(7, cb'))]]
    requires s.readers.socks == [Sock(5, cb)] && s.writers.socks == [Sock(7, cb)]
    requires 5 in ReadyFds(asked.readers, p.select.r) && 7 in ReadyFds(asked.writers, p.select.w)
    ensures Call(Write, Sock(7, cb')) in DispatchAll(s, asked, p).called
  {
    var r, w, e := ReadyFds(asked.readers, p.select.r), ReadyFds(asked.writers, p.select.w), ReadyFds(asked.exceptions, p.select.e);
    var s0 := ClearChanged(s, Read);
    var ops := p.readScripts[0];
    var a := s0.(called := s0.called + [Call(Read, Sock(5, cb))]);
    TwoOps(a, ops[0], ops[1]);
    assert Perform(a, ops[0]).writers.socks == [];
    var c := RunOps(a, ops);
    assert c.writers.socks == [Sock(7, cb')];
    var s1 := Dispatch(s, Read, r, p.readScripts);
    assert s1 == DispatchFrom(c, Read, r, p.readScripts, 1, 1) == c;
    DispatchCalls(s1, Write, w, p.writeScripts);
    var s2 := Dispatch(s1, Write, w, p.writeScripts);
    var ready := ReadySocks(s1.writers.socks, w, 0);
    assert ready[0] == Sock(7, cb');
    var m := CallsMade(p.writeScripts, Write, s1.writers.socks, 0, |ready|);
    assert Calls(Write, ready[..m])[0] == Call(Write, Sock(7, cb'));
    assert Call(Write, Sock(7, cb')) in s2.called;
    DispatchCalls(s2, Exception, e, p.exceptionScripts);
  }
}
