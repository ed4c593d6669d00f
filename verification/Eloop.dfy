/**
 The event loop (src/eloop.c): a timer list, three socket tables and the counters they share, all
 updated in place. Every method is proved to do what LoopState says, so what the lemma files prove
 about LoopState holds of it.
 */
module Eloop {
  import opened RelTimes
  import opened LoopState
  import DlList
  import opened TimerList
  import TimerOrder

  /** struct eloop_sock_table; edits is a history. */
  class SockTable {
    var socks: seq<Sock>
    var changed: bool
    ghost var edits: nat

    constructor ()
      ensures Value() == Table([], false, 0)
    {
      socks, changed, edits := [], false, 0;
    }

    ghost function Value(): Table
      reads this
    {
      Table(socks, changed, edits)
    }

    /** The entry's part of eloop_sock_table_add_sock. */
    method Add(sock: Sock)
      modifies this
      ensures Value() == Table(old(socks) + [sock], true, old(edits) + 1)
    {
      socks := socks + [sock];
      changed := true;
      edits := edits + 1;
    }

    /** The table's part of eloop_sock_table_remove_sock: drops the first entry for fd, if any. */
    method Remove(fd: nat) returns (removed: bool)
      modifies this
      ensures removed <==> fd in Fds(old(socks))
      ensures var k := FindSock(old(socks), fd);
        if removed then k < |old(socks)| && Value() == Table(old(socks)[..k] + old(socks)[k + 1..], true, old(edits) + 1)
        else k == |old(socks)| && Value() == old(Value())
    {
      var i := 0;
      while i < |socks|
        invariant i <= |socks|
        invariant forall j | 0 <= j < i :: socks[j].sock != fd
      {
        if socks[i].sock == fd {
          break;
        }
        i := i + 1;
      }
      assert i == FindSock(socks, fd);
      removed := i < |socks|;
      if removed {
        socks := socks[..i] + socks[i + 1..];
        changed := true;
        edits := edits + 1;
      }
    }

    /** eloop_sock_table_set_fds */
    method SetFds() returns (fds: set<nat>)
      ensures fds == Fds(socks)
    {
      fds := {};
      var i := 0;
      while i < |socks|
        invariant i <= |socks| && fds == Fds(socks[..i])
      {
        assert Fds(socks[..i + 1]) == Fds(socks[..i]) + {socks[i].sock} by {
          assert forall j | 0 <= j < i :: socks[..i + 1][j] == socks[..i][j];
          assert socks[..i + 1][i] == socks[i];
        }
        fds := fds + {socks[i].sock};
        i := i + 1;
      }
      assert socks[..i] == socks;
    }
  }

  class EventLoop {
    var clock: nat                      // the last reading of the system's clock
    const timeout: TimerList
    var serial: nat                     // how many timers were ever registered
    const readers: SockTable
    const writers: SockTable
    const exceptions: SockTable
    var count: int
    var maxSock: nat
    var terminate: bool
    ghost var registered: seq<Timer>
    ghost var cancelled: seq<Timer>
    ghost var fired: seq<Firing>
    ghost var called: seq<Call>
    ghost var ran: seq<Op>

    ghost predicate Valid()
      reads this, timeout, timeout.Repr
    {
      && timeout.Valid()
      && this !in timeout.Repr && readers !in timeout.Repr && writers !in timeout.Repr && exceptions !in timeout.Repr
      && readers != writers && readers != exceptions && writers != exceptions
      && serial == |registered|
      && (forall t | t in timeout.contents :: Normal(t.time))
    }

    /** The loop as a value. */
    ghost function Abs(): Loop
      reads this, timeout, readers, writers, exceptions
    {
      Loop(clock, timeout.contents, registered, cancelled, fired, readers.Value(), writers.Value(), exceptions.Value(),
           count, maxSock, called, ran, terminate)
    }

    /** eloop_init */
    constructor (clock: nat)
      ensures Valid() && fresh(timeout.Repr) && fresh(readers) && fresh(writers) && fresh(exceptions)
      ensures Abs() == Init(clock)
    {
      this.clock := clock;
      timeout := new TimerList();
      serial := 0;
      readers := new SockTable();
      writers := new SockTable();
      exceptions := new SockTable();
      count, maxSock, terminate := 0, 0, false;
      registered, cancelled, fired, called, ran := [], [], [], [], [];
    }

    /** os_get_reltime */
    method GetReltime(wait: nat) returns (now: RelTime)
      modifies this`clock
      ensures clock == old(clock) + wait && now == OfMicros(clock)
    {
      clock := clock + wait;
      now := OfMicros(clock);
    }

    // ---------- timers ----------

    /** The deadline of a new timer: microseconds are carried into seconds one second at a time. */
    static method ComputeDeadline(now: RelTime, secs: nat, usecs: nat) returns (time: RelTime)
      requires Normal(now)
      ensures time == OfMicros(Micros(now) + secs * MICROS_PER_SEC + usecs)
    {
      time := now;
      time := time.(sec := time.sec + secs);
      time := time.(usec := time.usec + usecs);
      while time.usec >= MICROS_PER_SEC
        invariant 0 <= time.usec
        invariant Micros(time) == Micros(now) + secs * MICROS_PER_SEC + usecs
        decreases time.usec
      {
        time := time.(sec := time.sec + 1);
        time := time.(usec := time.usec - MICROS_PER_SEC);
      }
      NormalIsUnique(time, OfMicros(Micros(now) + secs * MICROS_PER_SEC + usecs));
    }

    /** Puts a filled-in timer on the list. */
    method AddTimer(t: Timer)
      requires Valid() && Normal(t.time) && t.id == serial
      modifies this`serial, this`registered, timeout.Repr
      ensures Valid() && fresh(timeout.Repr - old(timeout.Repr))
      ensures Abs() == old(Abs()).(pending := Insert(old(timeout.contents), t), registered := old(registered) + [t])
    {
      var node := new DlList.Link(t);
      InsertKeepsNormal(timeout.contents, t);
      timeout.InsertSorted(node);
      serial := serial + 1;
      registered := registered + [t];
    }

    /** eloop_register_timeout */
    method RegisterTimeout(secs: nat, usecs: nat, cb: Callback, wait: nat)
      requires Valid()
      modifies this, timeout.Repr
      ensures Valid() && fresh(timeout.Repr - old(timeout.Repr))
      ensures Abs() == DoRegister(old(Abs()), secs, usecs, cb, wait)
    {
      var now := GetReltime(wait);
      var time := ComputeDeadline(now, secs, usecs);
      AddTimer(Timer(time, cb, serial));
    }

    static lemma InsertKeepsNormal(ts: seq<Timer>, t: Timer)
      requires Normal(t.time) && forall x | x in ts :: Normal(x.time)
      ensures forall x | x in Insert(ts, t) :: Normal(x.time)
    {
      TimerOrder.InsertMembers(ts, t);
    }

    /** eloop_remove_timeout, for the node of the k-th pending timer. */
    method RemoveTimeout(node: DlList.Link<Timer>, ghost k: nat)
      requires Valid() && k < |timeout.contents| && node == At(timeout.ring, k + 1)
      modifies timeout.Repr
      ensures Valid() && timeout.Repr == old(timeout.Repr)
      ensures Abs() == old(Abs()).(pending := RemoveAt(old(timeout.contents), k))
    {
      RemoveAtMembers(timeout.contents, k);
      timeout.Remove(node, k);
    }

    static lemma RemoveAtMembers(ts: seq<Timer>, k: nat)
      requires k < |ts|
      ensures forall t | t in RemoveAt(ts, k) :: t in ts
      ensures RemoveAt(ts, 0) == ts[1..]
    {
    }

    /** eloop_cancel_timeout */
    method CancelTimeout(cb: Callback) returns (removed: nat)
      requires Valid()
      modifies this, timeout.Repr
      ensures Valid() && timeout.Repr == old(timeout.Repr)
      ensures Abs() == DoCancel(old(Abs()), cb)
      ensures removed == |cancelled| - |old(cancelled)|
    {
      TimerOrder.SelectMembers(timeout.contents, cb, false);
      ghost var gone;
      removed, gone := timeout.Cancel(cb);
      cancelled := cancelled + gone;
    }

    /** eloop_is_timeout_registered */
    method IsTimeoutRegistered(cb: Callback) returns (found: bool)
      requires Valid()
      ensures found <==> exists t :: t in timeout.contents && t.cb == cb
    {
      var tmp, k := timeout.FindExact(cb);
      found := tmp != timeout.head;
      assert found ==> timeout.contents[k] in timeout.contents;
    }

    static method TimeLeft(time: RelTime, now: RelTime) returns (left: RelTime)
      requires Normal(time) && Normal(now)
      ensures left == if Micros(time) > Micros(now) then OfMicros(Micros(time) - Micros(now)) else RelTime(0, 0)
    {
      left := RelTime(0, 0);
      BeforeIsLess(now, time);
      if Before(now, time) {
        left := Sub(time, now);
      }
    }

    /** eloop_cancel_timeout_one: also reports the time the timer had left, zero if it was overdue. */
    method CancelTimeoutOne(cb: Callback, wait: nat) returns (removed: bool, remaining: RelTime)
      requires Valid()
      modifies this, timeout.Repr
      ensures Valid() && timeout.Repr == old(timeout.Repr)
      ensures Abs() == DoCancelOne(old(Abs()), cb, wait)
      ensures var k := FirstExact(old(timeout.contents), cb);
        && (removed <==> k < |old(timeout.contents)|)
        && remaining == if removed && Micros(old(timeout.contents)[k].time) > clock then Remaining(old(timeout.contents)[k], clock)
                        else RelTime(0, 0)
    {
      var now := GetReltime(wait);
      removed, remaining := false, RelTime(0, 0);
      var tmp, k := timeout.FindExact(cb);
      if tmp != timeout.head {
        removed := true;
        remaining := TimeLeft(tmp.item.time, now);
        CancelNode(tmp, k);
      }
    }

    method CancelNode(tmp: DlList.Link<Timer>, ghost k: nat)
      requires Valid() && k < |timeout.contents| && tmp == At(timeout.ring, k + 1) && tmp.item == timeout.contents[k]
      modifies this`cancelled, timeout.Repr
      ensures Valid() && timeout.Repr == old(timeout.Repr)
      ensures Abs() == old(Abs()).(pending := RemoveAt(old(timeout.contents), k), cancelled := old(cancelled) + [old(timeout.contents)[k]])
    {
      RemoveTimeout(tmp, k);
      cancelled := cancelled + [tmp.item];
    }

    /** The cancel and register with which deplete and replenish re-arm a timer. */
    method RegisterAnew(secs: nat, usecs: nat, cb: Callback, wait: nat)
      requires Valid()
      modifies this, timeout.Repr
      ensures Valid() && fresh(timeout.Repr - old(timeout.Repr))
      ensures Abs() == DoRegister(DoCancel(old(Abs()), cb), secs, usecs, cb, wait)
    {
      var removed := CancelTimeout(cb);
      RegisterTimeout(secs, usecs, cb, wait);
    }

    /** The time left of a timer when the clock is read again. */
    method ReadRemaining(tmp: DlList.Link<Timer>, wait: nat) returns (remaining: RelTime)
      requires Valid() && Normal(tmp.item.time)
      modifies this`clock
      ensures Valid() && Abs() == Tick(old(Abs()), wait)
      ensures remaining == Remaining(tmp.item, old(clock) + wait)
    {
      var now := GetReltime(wait);
      remaining := Sub(tmp.item.time, now);
    }

    /** eloop_deplete_timeout */
    method DepleteTimeout(secs: nat, usecs: nat, cb: Callback, wait: nat, wait2: nat) returns (res: int)
      requires Valid()
      modifies this, timeout.Repr
      ensures Valid() && fresh(timeout.Repr - old(timeout.Repr))
      ensures Abs() == DoRearm(old(Abs()), true, secs, usecs, cb, wait, wait2)
      ensures res == RearmResult(old(Abs()), true, secs, usecs, cb, wait)
    {
      var tmp, k := timeout.FindExact(cb);
      if tmp == timeout.head {
        return -1;
      }
      var remaining := ReadRemaining(tmp, wait);
      if Before(RelTime(secs, usecs), remaining) {
        RegisterAnew(secs, usecs, cb, wait2);
        return 1;
      }
      return 0;
    }

    /** eloop_replenish_timeout */
    method ReplenishTimeout(secs: nat, usecs: nat, cb: Callback, wait: nat, wait2: nat) returns (res: int)
      requires Valid()
      modifies this, timeout.Repr
      ensures Valid() && fresh(timeout.Repr - old(timeout.Repr))
      ensures Abs() == DoRearm(old(Abs()), false, secs, usecs, cb, wait, wait2)
      ensures res == RearmResult(old(Abs()), false, secs, usecs, cb, wait)
    {
      var tmp, k := timeout.FindExact(cb);
      if tmp == timeout.head {
        return -1;
      }
      var remaining := ReadRemaining(tmp, wait);
      if Before(remaining, RelTime(secs, usecs)) {
        RegisterAnew(secs, usecs, cb, wait2);
        return 1;
      }
      return 0;
    }

    // ---------- sockets ----------

    /** eloop_get_sock_table */
    function TableOf(kind: Kind): SockTable {
      match kind
      case Read => readers
      case Write => writers
      case Exception => exceptions
    }

    /** eloop_register_sock */
    method RegisterSock(kind: Kind, sock: Sock)
      requires Valid()
      modifies this`maxSock, this`count, readers, writers, exceptions
      ensures Valid()
      ensures Abs() == DoAddSock(old(Abs()), kind, sock)
    {
      if sock.sock > maxSock {
        maxSock := sock.sock;
      }
      TableOf(kind).Add(sock);
      count := count + 1;
    }

    /** eloop_unregister_sock */
    method UnregisterSock(kind: Kind, fd: nat)
      requires Valid()
      modifies this`count, readers, writers, exceptions
      ensures Valid()
      ensures Abs() == DoRemoveSock(old(Abs()), kind, fd)
    {
      var removed := TableOf(kind).Remove(fd);
      if removed {
        count := count - 1;
      }
    }

    // ---------- callbacks ----------

    method Perform(op: Op)
      requires Valid()
      modifies this, timeout.Repr, readers, writers, exceptions
      ensures Valid() && fresh(timeout.Repr - old(timeout.Repr))
      ensures Abs() == LoopState.Perform(old(Abs()), op)
    {
      CallLoop(op);
      ran := ran + [op];
    }

    method CallLoop(op: Op)
      requires Valid()
      modifies this, timeout.Repr, readers, writers, exceptions
      ensures Valid() && fresh(timeout.Repr - old(timeout.Repr))
      ensures Abs() == Effect(old(Abs()), op)
    {
      match op
      case RegisterTimeout(secs, usecs, cb, wait) => RegisterTimeout(secs, usecs, cb, wait);
      case CancelTimeout(cb) => var removed := CancelTimeout(cb);
      case CancelTimeoutOne(cb, wait) => var removed, remaining := CancelTimeoutOne(cb, wait);
      case DepleteTimeout(secs, usecs, cb, wait, wait2) => var res := DepleteTimeout(secs, usecs, cb, wait, wait2);
      case ReplenishTimeout(secs, usecs, cb, wait, wait2) => var res := ReplenishTimeout(secs, usecs, cb, wait, wait2);
      case RegisterSock(kind, sock) => RegisterSock(kind, sock);
      case UnregisterSock(kind, fd) => UnregisterSock(kind, fd);
      case Terminate => terminate := true;
    }

    static lemma RunOpsNext(s: Loop, ops: seq<Op>, i: nat)
      requires i < |ops|
      ensures RunOps(s, ops[..i + 1]) == LoopState.Perform(RunOps(s, ops[..i]), ops[i])
    {
      assert ops[..i + 1][..i] == ops[..i];
    }

    static lemma RunPassesNext(r: Run, passes: seq<Pass>, i: nat)
      requires i < |passes|
      ensures RunPasses(r, passes[..i + 1]) == RunPass(RunPasses(r, passes[..i]), passes[i])
    {
      assert passes[..i + 1][..i] == passes[..i];
    }

    /** The body of a callback. */
    method RunScript(ops: seq<Op>)
      requires Valid()
      modifies this, timeout.Repr, readers, writers, exceptions
      ensures Valid() && fresh(timeout.Repr - old(timeout.Repr))
      ensures Abs() == RunOps(old(Abs()), ops)
    {
      var i := 0;
      while i < |ops|
        invariant i <= |ops|
        invariant Valid() && fresh(timeout.Repr - old(timeout.Repr))
        invariant Abs() == RunOps(old(Abs()), ops[..i])
      {
        RunOpsNext(old(Abs()), ops, i);
        Perform(ops[i]);
        i := i + 1;
      }
      assert ops[..i] == ops;
    }

    // ---------- the loop ----------

    /** eloop_sock_table_dispatch */
    method DispatchTable(kind: Kind, fds: set<nat>, scripts: seq<seq<Op>>)
      requires Valid()
      modifies this, timeout.Repr, readers, writers, exceptions
      ensures Valid() && fresh(timeout.Repr - old(timeout.Repr))
      ensures Abs() == Dispatch(old(Abs()), kind, fds, scripts)
    {
      var table := TableOf(kind);
      table.changed := false;
      var i, k := 0, 0;
      assert Abs() == ClearChanged(old(Abs()), kind);
      while i < |table.socks|
        invariant Valid() && fresh(timeout.Repr - old(timeout.Repr))
        invariant !table.changed
        invariant DispatchFrom(Abs(), kind, fds, scripts, i, k) == Dispatch(old(Abs()), kind, fds, scripts)
        decreases |table.socks| - i
      {
        var called;
        called := DispatchEntry(kind, fds, scripts, i, k);
        if table.changed {
          break;
        }
        k := if called then k + 1 else k;
        i := i + 1;
      }
    }

    /** One turn of the walk, at entry i when k handlers have been called. */
    method DispatchEntry(kind: Kind, fds: set<nat>, scripts: seq<seq<Op>>, i: nat, k: nat) returns (called: bool)
      requires Valid() && !TableOf(kind).changed && i < |TableOf(kind).socks|
      modifies this, timeout.Repr, readers, writers, exceptions
      ensures Valid() && fresh(timeout.Repr - old(timeout.Repr))
      ensures TableOf(kind).changed ==> Abs() == DispatchFrom(old(Abs()), kind, fds, scripts, i, k)
      ensures !TableOf(kind).changed ==> TableOf(kind).socks == old(TableOf(kind).socks)
      ensures !TableOf(kind).changed ==>
        DispatchFrom(Abs(), kind, fds, scripts, i + 1, if called then k + 1 else k) == DispatchFrom(old(Abs()), kind, fds, scripts, i, k)
    {
      ghost var s := Abs();
      assert GetTable(s, kind).socks == TableOf(kind).socks;
      var sock := TableOf(kind).socks[i];
      called := sock.sock in fds;
      if called {
        CallHandler(kind, sock, Script(scripts, k));
      }
    }

    /** The call of one socket's handler; without a change the table still has the same entries. */
    method CallHandler(kind: Kind, sock: Sock, script: seq<Op>)
      requires Valid() && !TableOf(kind).changed
      modifies this, timeout.Repr, readers, writers, exceptions
      ensures Valid() && fresh(timeout.Repr - old(timeout.Repr))
      ensures Abs() == CallSock(old(Abs()), kind, sock, script)
      ensures !TableOf(kind).changed ==> TableOf(kind).socks == old(TableOf(kind).socks)
    {
      called := called + [Call(kind, sock)];
      OpsKeepFlag(Abs(), script, kind);
      RunScript(script);
    }

    /** The timer check of eloop_run. */
    method FireFirst(wait: nat, script: seq<Op>)
      requires Valid()
      modifies this, timeout.Repr, readers, writers, exceptions
      ensures Valid() && fresh(timeout.Repr - old(timeout.Repr))
      ensures Abs() == FireHead(old(Abs()), wait, script)
    {
      ghost var s := Abs();
      var tmp := timeout.First();
      if tmp != timeout.head {
        var now := GetReltime(wait);
        assert Abs() == Tick(s, wait);
        BeforeIsLess(now, tmp.item.time);
        if !Before(now, tmp.item.time) {
          RemoveAtMembers(timeout.contents, 0);
          RemoveTimeout(tmp, 0);
          fired := fired + [Firing(tmp.item, clock)];
          assert FireHead(s, wait, script) == RunOps(Abs(), script);
          RunScript(script);
        }
      }
    }

    /** How long select may block. */
    method ComputeSelectTimeout(wait: nat) returns (tv: Timeout)
      requires Valid()
      modifies this`clock
      ensures Valid()
      ensures Abs() == (if timeout.contents == [] then old(Abs()) else Tick(old(Abs()), wait))
      ensures tv == SelectTimeout(Abs())
    {
      tv := Forever;
      var tmp := timeout.First();
      if tmp != timeout.head {
        var now := GetReltime(wait);
        var left := TimeLeft(tmp.item.time, now);
        tv := Until(left);
      }
    }

    /** The three walks, over the descriptor sets that were built for the loop as it was in asked. */
    method DispatchTables(p: Pass, rfds: set<nat>, wfds: set<nat>, efds: set<nat>, ghost asked: Loop)
      requires Valid() && p.select.Ready?
      requires rfds == Fds(asked.readers.socks) && wfds == Fds(asked.writers.socks) && efds == Fds(asked.exceptions.socks)
      modifies this, timeout.Repr, readers, writers, exceptions
      ensures Valid() && fresh(timeout.Repr - old(timeout.Repr))
      ensures Abs() == DispatchAll(old(Abs()), asked, p)
    {
      DispatchTable(Read, rfds * p.select.r, p.readScripts);
      DispatchTable(Write, wfds * p.select.w, p.writeScripts);
      DispatchTable(Exception, efds * p.select.e, p.exceptionScripts);
    }

    /** The flags are cleared, signal callbacks run, a due timer runs. */
    method SignalsAndTimer(p: Pass)
      requires Valid()
      modifies this, timeout.Repr, readers, writers, exceptions
      ensures Valid() && fresh(timeout.Repr - old(timeout.Repr))
      ensures Abs() == FireHead(RunOps(ClearAllChanged(old(Abs())), p.signalOps), p.wait1, p.timerOps)
    {
      readers.changed := false;
      writers.changed := false;
      exceptions.changed := false;
      assert Abs() == ClearAllChanged(old(Abs()));
      RunScript(p.signalOps);
      FireFirst(p.wait1, p.timerOps);
    }

    /** A pass from select's successful return on; asked is the loop the descriptor sets were built for. */
    method AfterSelect(p: Pass, rfds: set<nat>, wfds: set<nat>, efds: set<nat>, ghost asked: Loop)
      requires Valid() && !p.select.Failed? && Abs() == Tick(asked, p.selectWait)
      requires rfds == Fds(asked.readers.socks) && wfds == Fds(asked.writers.socks) && efds == Fds(asked.exceptions.socks)
      modifies this, timeout.Repr, readers, writers, exceptions
      ensures Valid() && fresh(timeout.Repr - old(timeout.Repr))
      ensures Abs() == FinishPass(asked, p).loop
    {
      SignalsAndTimer(p);
      ghost var s := Abs();
      assert s == UpToTimers(asked, p);
      if p.select.Ready? && !readers.changed && !writers.changed && !exceptions.changed {
        DispatchTables(p, rfds, wfds, efds, asked);
      }
    }

    /** One pass of eloop_run after its guard and the early signal check; false if select failed. */
    method Pass(p: Pass) returns (running: bool)
      requires Valid()
      modifies this, timeout.Repr, readers, writers, exceptions
      ensures Valid() && fresh(timeout.Repr - old(timeout.Repr))
      ensures Run.Run(Abs(), running) == FinishPass(BeforeSelect(old(Abs()), p), p)
    {
      var tv := ComputeSelectTimeout(p.wait0);
      ghost var asked := Abs();
      var rfds := readers.SetFds();
      var wfds := writers.SetFds();
      var efds := exceptions.SetFds();
      var now := GetReltime(p.selectWait);
      running := !p.select.Failed?;
      if running {
        AfterSelect(p, rfds, wfds, efds, asked);
      }
    }

    /** The guard of eloop_run's loop. */
    method MayContinue() returns (b: bool)
      requires Valid()
      ensures b == Guard(Abs())
    {
      var tmp := timeout.First();
      b := !terminate && (tmp != timeout.head || |readers.socks| > 0 || |writers.socks| > 0 || |exceptions.socks| > 0);
    }

    /** eloop_run, for as many passes as there are inputs; running if it has not returned by then. */
    method RunLoop(passes: seq<Pass>) returns (running: bool)
      requires Valid()
      modifies this, timeout.Repr, readers, writers, exceptions
      ensures Valid() && fresh(timeout.Repr - old(timeout.Repr))
      ensures Run.Run(Abs(), running) == RunPasses(Run.Run(old(Abs()), true), passes)
    {
      running := true;
      ghost var r0 := Run.Run(Abs(), true);
      var i := 0;
      while i < |passes|
        invariant i <= |passes|
        invariant Valid() && fresh(timeout.Repr - old(timeout.Repr))
        invariant Run.Run(Abs(), running) == RunPasses(r0, passes[..i])
      {
        RunPassesNext(r0, passes, i);
        running := PassIfRunning(passes[i], running);
        i := i + 1;
      }
      assert passes[..i] == passes;
    }

    method PassIfRunning(p: Pass, running: bool) returns (still: bool)
      requires Valid()
      modifies this, timeout.Repr, readers, writers, exceptions
      ensures Valid() && fresh(timeout.Repr - old(timeout.Repr))
      ensures Run.Run(Abs(), still) == RunPass(Run.Run(old(Abs()), running), p)
    {
      still := false;
      if running {
        still := GuardedPass(p);
      }
    }

    method GuardedPass(p: Pass) returns (running: bool)
      requires Valid()
      modifies this, timeout.Repr, readers, writers, exceptions
      ensures Valid() && fresh(timeout.Repr - old(timeout.Repr))
      ensures Run.Run(Abs(), running) == RunPass(Run.Run(old(Abs()), true), p)
    {
      var continue_ := MayContinue();
      if !continue_ {
        terminate := false;
        return false;
      }
      if p.earlyRuns {
        RunScript(p.early);
        if terminate {
          terminate := false;
          return false;
        }
      }
      running := Pass(p);
    }
  }
}
