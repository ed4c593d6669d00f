/**
 What the event loop holds and what each of its entry points does to it, on values.
 The class in Eloop.dfy works in place on a ring of linked nodes and on fields, and is proved
 to do exactly this; the lemma files prove what the loop promises about whole runs.

 A callback's body is arbitrary code outside the loop. Here it is a script, the list of loop
 entry points it calls, and every statement is for all scripts. A clock reading is the previous
 reading plus an arbitrary number of microseconds, so readings never go back.
 */
module LoopState {
  import opened RelTimes

  type Ptr = int

  /** The context value that matches every context when a timer is cancelled. */
  const ELOOP_ALL_CTX: Ptr := -1

  datatype Callback = Callback(handler: Ptr, eloopData: Ptr, userData: Ptr)

  /** An eloop_timeout. Its id is the number of registrations before it: it stands for the node's identity. */
  datatype Timer = Timer(time: RelTime, cb: Callback, id: nat)

  /** A timer that ran, and the clock reading that made it run. */
  datatype Firing = Firing(timer: Timer, at: nat)

  datatype Kind = Read | Write | Exception

  datatype Sock = Sock(sock: nat, cb: Callback)

  /** An eloop_sock_table. The history field edits counts the changes ever made to it. */
  datatype Table = Table(socks: seq<Sock>, changed: bool, edits: nat)

  datatype Call = Call(kind: Kind, sock: Sock)

  /** The loop. The fields registered, cancelled, fired, called and ran are histories. */
  datatype Loop = Loop(
    clock: nat,
    pending: seq<Timer>,
    registered: seq<Timer>,
    cancelled: seq<Timer>,
    fired: seq<Firing>,
    readers: Table,
    writers: Table,
    exceptions: Table,
    count: int,
    maxSock: nat,
    called: seq<Call>,
    ran: seq<Op>,
    terminate: bool)

  /** One call a callback makes into the loop; every wait is the time since the last clock reading. */
  datatype Op =
    | RegisterTimeout(secs: nat, usecs: nat, cb: Callback, wait: nat)
    | CancelTimeout(cb: Callback)
    | CancelTimeoutOne(cb: Callback, wait: nat)
    | DepleteTimeout(secs: nat, usecs: nat, cb: Callback, wait: nat, wait2: nat)
    | ReplenishTimeout(secs: nat, usecs: nat, cb: Callback, wait: nat, wait2: nat)
    | RegisterSock(kind: Kind, sock: Sock)
    | UnregisterSock(kind: Kind, fd: nat)
    | Terminate

  /** The loop as eloop_init leaves it, with the clock at any value. */
  function Init(clock: nat): Loop {
    var t := Table([], false, 0);
    Loop(clock, [], [], [], [], t, t, t, 0, 0, [], [], false)
  }

  // ---------- timers ----------

  function Tick(s: Loop, wait: nat): Loop {
    s.(clock := s.clock + wait)
  }

  predicate Matches(t: Timer, cb: Callback) {
    && t.cb.handler == cb.handler
    && (t.cb.eloopData == cb.eloopData || cb.eloopData == ELOOP_ALL_CTX)
    && (t.cb.userData == cb.userData || cb.userData == ELOOP_ALL_CTX)
  }

  /** The queue with t put before the first timer that is due strictly later. */
  function Insert(ts: seq<Timer>, t: Timer): seq<Timer> {
    if ts == [] then [t]
    else if Before(t.time, ts[0].time) then [t] + ts
    else [ts[0]] + Insert(ts[1..], t)
  }

  /** The timers of ts that match cb, or those that do not, in order. */
  function Select(ts: seq<Timer>, cb: Callback, matching: bool): seq<Timer> {
    if ts == [] then []
    else
      var n := |ts| - 1;
      Select(ts[..n], cb, matching) + if Matches(ts[n], cb) == matching then [ts[n]] else []
  }

  /** The position of the first timer registered with exactly this callback, or |ts|. */
  function FirstExact(ts: seq<Timer>, cb: Callback): (k: nat)
    ensures k <= |ts|
    ensures k < |ts| ==> ts[k].cb == cb
    ensures forall i | 0 <= i < k :: ts[i].cb != cb
  {
    if ts == [] || ts[0].cb == cb then 0 else 1 + FirstExact(ts[1..], cb)
  }

  function Deadline(clock: nat, secs: nat, usecs: nat): RelTime {
    OfMicros(clock + secs * MICROS_PER_SEC + usecs)
  }

  function DoRegister(s: Loop, secs: nat, usecs: nat, cb: Callback, wait: nat): Loop {
    var s1 := Tick(s, wait);
    var t := Timer(Deadline(s1.clock, secs, usecs), cb, |s.registered|);
    s1.(pending := Insert(s.pending, t), registered := s.registered + [t])
  }

  function DoCancel(s: Loop, cb: Callback): Loop {
    s.(pending := Select(s.pending, cb, false), cancelled := s.cancelled + Select(s.pending, cb, true))
  }

  function RemoveAt(ts: seq<Timer>, k: nat): seq<Timer>
    requires k < |ts|
  {
    ts[..k] + ts[k + 1..]
  }

  function DoCancelOne(s: Loop, cb: Callback, wait: nat): Loop {
    var s1 := Tick(s, wait);
    var k := FirstExact(s.pending, cb);
    if k == |s.pending| then s1
    else s1.(pending := RemoveAt(s.pending, k), cancelled := s.cancelled + [s.pending[k]])
  }

  /** The time left of a timer at a clock reading; negative when it is overdue. */
  function Remaining(t: Timer, clock: nat): RelTime {
    OfMicros(Micros(t.time) - clock)
  }

  /** Re-arming: deplete shortens a timer that has more than the request left, replenish lengthens
      one that has less. */
  predicate Rearms(deplete: bool, request: RelTime, remaining: RelTime) {
    if deplete then Before(request, remaining) else Before(remaining, request)
  }

  /** What deplete and replenish return: -1 without such a timer, 1 if it was re-armed, 0 if it was not. */
  function RearmResult(s: Loop, deplete: bool, secs: nat, usecs: nat, cb: Callback, wait: nat): int {
    var k := FirstExact(s.pending, cb);
    if k == |s.pending| then -1
    else if Rearms(deplete, RelTime(secs, usecs), Remaining(s.pending[k], s.clock + wait)) then 1
    else 0
  }

  function DoRearm(s: Loop, deplete: bool, secs: nat, usecs: nat, cb: Callback, wait: nat, wait2: nat): Loop {
    match RearmResult(s, deplete, secs, usecs, cb, wait)
    case -1 => s
    case 0 => Tick(s, wait)
    case _ => DoRegister(DoCancel(Tick(s, wait), cb), secs, usecs, cb, wait2)
  }

  // ---------- socket tables ----------

  function GetTable(s: Loop, kind: Kind): Table {
    match kind
    case Read => s.readers
    case Write => s.writers
    case Exception => s.exceptions
  }

  function SetTable(s: Loop, kind: Kind, t: Table): Loop {
    match kind
    case Read => s.(readers := t)
    case Write => s.(writers := t)
    case Exception => s.(exceptions := t)
  }

  function DoAddSock(s: Loop, kind: Kind, sock: Sock): Loop {
    var t := GetTable(s, kind);
    SetTable(s, kind, Table(t.socks + [sock], true, t.edits + 1))
    .(count := s.count + 1, maxSock := if sock.sock > s.maxSock then sock.sock else s.maxSock)
  }

  /** The position of the first entry for fd, or |socks|. */
  function FindSock(socks: seq<Sock>, fd: nat): (k: nat)
    ensures k <= |socks|
    ensures k < |socks| ==> socks[k].sock == fd
    ensures forall i | 0 <= i < k :: socks[i].sock != fd
  {
    if socks == [] || socks[0].sock == fd then 0 else 1 + FindSock(socks[1..], fd)
  }

  function DoRemoveSock(s: Loop, kind: Kind, fd: nat): Loop {
    var t := GetTable(s, kind);
    var k := FindSock(t.socks, fd);
    if k == |t.socks| then s
    else
      SetTable(s, kind, Table(t.socks[..k] + t.socks[k + 1..], true, t.edits + 1)).(count := s.count - 1)
  }

  // ---------- callbacks ----------

  /** A call a callback makes into the loop: its effect, and its place in the history. */
  function Perform(s: Loop, op: Op): Loop {
    Effect(s, op).(ran := s.ran + [op])
  }

  function Effect(s: Loop, op: Op): Loop {
    match op
    case RegisterTimeout(secs, usecs, cb, wait) => DoRegister(s, secs, usecs, cb, wait)
    case CancelTimeout(cb) => DoCancel(s, cb)
    case CancelTimeoutOne(cb, wait) => DoCancelOne(s, cb, wait)
    case DepleteTimeout(secs, usecs, cb, wait, wait2) => DoRearm(s, true, secs, usecs, cb, wait, wait2)
    case ReplenishTimeout(secs, usecs, cb, wait, wait2) => DoRearm(s, false, secs, usecs, cb, wait, wait2)
    case RegisterSock(kind, sock) => DoAddSock(s, kind, sock)
    case UnregisterSock(kind, fd) => DoRemoveSock(s, kind, fd)
    case Terminate => s.(terminate := true)
  }

  function RunOps(s: Loop, ops: seq<Op>): Loop {
    if ops == [] then s else Perform(RunOps(s, ops[..|ops| - 1]), ops[|ops| - 1])
  }

  /** A table only changes with its flag set, and the flag is never cleared by a callback. */
  predicate FlagFollows(t: Table, t': Table) {
    && t.edits <= t'.edits
    && (t'.changed <==> t.changed || t.edits < t'.edits)
    && (t'.edits == t.edits ==> t' == t)
  }

  lemma PerformKeepsFlag(s: Loop, op: Op, kind: Kind)
    ensures FlagFollows(GetTable(s, kind), GetTable(Perform(s, op), kind))
  {
    match op
    case RegisterSock(k, sock) =>
    case UnregisterSock(k, fd) =>
    case RegisterTimeout(_, _, _, _) =>
    case CancelTimeout(_) =>
    case CancelTimeoutOne(_, _) =>
    case DepleteTimeout(_, _, _, _, _) =>
    case ReplenishTimeout(_, _, _, _, _) =>
    case Terminate =>
  }

  lemma {:induction false} OpsKeepFlag(s: Loop, ops: seq<Op>, kind: Kind)
    ensures FlagFollows(GetTable(s, kind), GetTable(RunOps(s, ops), kind))
  {
    if ops != [] {
      OpsKeepFlag(s, ops[..|ops| - 1], kind);
      PerformKeepsFlag(RunOps(s, ops[..|ops| - 1]), ops[|ops| - 1], kind);
    }
  }

  // ---------- dispatch ----------

  function Fds(socks: seq<Sock>): set<nat> {
    set i | 0 <= i < |socks| :: socks[i].sock
  }

  function ClearChanged(s: Loop, kind: Kind): Loop {
    SetTable(s, kind, GetTable(s, kind).(changed := false))
  }

  /** The k-th callback's script; callbacks beyond the list do nothing. */
  function Script(scripts: seq<seq<Op>>, k: nat): seq<Op> {
    if k < |scripts| then scripts[k] else []
  }

  /** A callback of one socket: it is recorded, then its script runs. */
  function CallSock(s: Loop, kind: Kind, sock: Sock, script: seq<Op>): Loop {
    RunOps(s.(called := s.called + [Call(kind, sock)]), script)
  }

  /** The dispatch loop from entry i on, when k callbacks of this pass have run. */
  function DispatchFrom(s: Loop, kind: Kind, fds: set<nat>, scripts: seq<seq<Op>>, i: nat, k: nat): Loop
    requires !GetTable(s, kind).changed
    decreases |GetTable(s, kind).socks| - i
  {
    var socks := GetTable(s, kind).socks;
    if i >= |socks| then s
    else if socks[i].sock !in fds then DispatchFrom(s, kind, fds, scripts, i + 1, k)
    else
      var s1 := CallSock(s, kind, socks[i], Script(scripts, k));
      OpsKeepFlag(s.(called := s.called + [Call(kind, socks[i])]), Script(scripts, k), kind);
      if GetTable(s1, kind).changed then s1 else DispatchFrom(s1, kind, fds, scripts, i + 1, k + 1)
  }

  /** eloop_sock_table_dispatch: one walk over a table, ended by the first change to that table. */
  function Dispatch(s: Loop, kind: Kind, fds: set<nat>, scripts: seq<seq<Op>>): Loop {
    DispatchFrom(ClearChanged(s, kind), kind, fds, scripts, 0, 0)
  }

  // ---------- eloop_run ----------

  /** What select reports: a fatal error, an interrupted or timed-out call, or the ready descriptors. */
  datatype SelectResult = Failed | Nothing | Ready(r: set<nat>, w: set<nat>, e: set<nat>)

  /** Everything one pass of the loop gets from outside. */
  datatype Pass = Pass(
    early: seq<Op>, earlyRuns: bool,        // signal callbacks run before select, if a termination is pending
    wait0: nat, selectWait: nat, select: SelectResult,
    signalOps: seq<Op>,                     // signal callbacks run after select
    wait1: nat, timerOps: seq<Op>,          // the clock reading for the timer check, the timer's callback
    readScripts: seq<seq<Op>>, writeScripts: seq<seq<Op>>, exceptionScripts: seq<seq<Op>>)

  datatype Run = Run(loop: Loop, running: bool)

  predicate Guard(s: Loop) {
    !s.terminate && (|s.pending| > 0 || |s.readers.socks| > 0 || |s.writers.socks| > 0 || |s.exceptions.socks| > 0)
  }

  /** How long select may block: until the first deadline, not at all if it has passed, or for ever. */
  datatype Timeout = Forever | Until(tv: RelTime)

  function SelectTimeout(s: Loop): Timeout {
    if s.pending == [] then Forever
    else if Micros(s.pending[0].time) > s.clock then Until(Remaining(s.pending[0], s.clock))
    else Until(RelTime(0, 0))
  }

  function BeforeSelect(s: Loop, p: Pass): Loop {
    if s.pending == [] then s else Tick(s, p.wait0)
  }

  function ClearAllChanged(s: Loop): Loop {
    ClearChanged(ClearChanged(ClearChanged(s, Read), Write), Exception)
  }

  predicate AnyChanged(s: Loop) {
    s.readers.changed || s.writers.changed || s.exceptions.changed
  }

  /** The timer check: the first timer runs if it is due, and only that one. */
  function FireHead(s: Loop, wait: nat, script: seq<Op>): Loop {
    if s.pending == [] then s
    else
      var s1 := Tick(s, wait);
      var t := s.pending[0];
      if s1.clock < Micros(t.time) then s1
      else RunOps(s1.(pending := s.pending[1..], fired := s.fired + [Firing(t, s1.clock)]), script)
  }

  /** Descriptors of a table that select marked ready: it only reports descriptors it was asked about. */
  function ReadyFds(t: Table, ready: set<nat>): set<nat> {
    Fds(t.socks) * ready
  }

  /** The three walks; asked is the loop as it was when the descriptor sets were built. */
  function DispatchAll(s: Loop, asked: Loop, p: Pass): Loop
    requires p.select.Ready?
  {
    var s1 := Dispatch(s, Read, ReadyFds(asked.readers, p.select.r), p.readScripts);
    var s2 := Dispatch(s1, Write, ReadyFds(asked.writers, p.select.w), p.writeScripts);
    Dispatch(s2, Exception, ReadyFds(asked.exceptions, p.select.e), p.exceptionScripts)
  }

  /** The pass up to and including the timer check, from a loop that is about to call select. */
  function UpToTimers(asked: Loop, p: Pass): Loop {
    FireHead(RunOps(ClearAllChanged(Tick(asked, p.selectWait)), p.signalOps), p.wait1, p.timerOps)
  }

  function FinishPass(asked: Loop, p: Pass): Run {
    if p.select.Failed? then Run(Tick(asked, p.selectWait), false)
    else
      var s := UpToTimers(asked, p);
      Run(if p.select.Ready? && !AnyChanged(s) then DispatchAll(s, asked, p) else s, true)
  }

  function RunPass(r: Run, p: Pass): Run {
    if !r.running then r
    else if !Guard(r.loop) then Run(r.loop.(terminate := false), false)
    else
      var s := if p.earlyRuns then RunOps(r.loop, p.early) else r.loop;
      if p.earlyRuns && s.terminate then Run(s.(terminate := false), false)
      else FinishPass(BeforeSelect(s, p), p)
  }

  function RunPasses(r: Run, passes: seq<Pass>): Run {
    if passes == [] then r else RunPass(RunPasses(r, passes[..|passes| - 1]), passes[|passes| - 1])
  }
}
