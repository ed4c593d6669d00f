/**
 Signal delivery against the pending-signal scan (eloop_handle_signal, eloop_process_pending_signals).
 The operating system runs the first at any moment; the scan is therefore written with a point
 between any two of its accesses to shared memory at which any signals may be delivered. A schedule
 says what is delivered where, and every statement is for all schedules.
 */
module Signals {

  const SIGHUP := 1
  const SIGINT := 2
  const SIGTERM := 15

  /** An eloop_signal: its number and how often it was delivered since its handler was last called. */
  datatype Entry = Entry(sig: int, signaled: nat)

  /** What happens while a handler runs: a signal is delivered, or the handler registers one. Growing the table may
      move it, and signals may be delivered before and after the number of entries is raised. */
  datatype Act =
    | Arrive(sig: int)
    | Register(sig: int, moved: bool, early: seq<int>, late: seq<int>)

  /** No delivery can hit a table that has already been copied. */
  predicate Safe(acts: seq<Act>) {
    forall a | 0 <= a < |acts| && acts[a].Register? :: acts[a].moved ==> acts[a].early == acts[a].late == []
  }

  /** What happened to the k-th registered signal. */
  datatype Event = Delivered(k: nat) | Called(k: nat)

  /** The entry a delivery of sig counts for: the first one registered for it. */
  function FirstEntry(signals: seq<Entry>, sig: int): (k: nat)
    ensures k <= |signals|
    ensures k < |signals| ==> signals[k].sig == sig
    ensures forall i | 0 <= i < k :: signals[i].sig != sig
  {
    if signals == [] || signals[0].sig == sig then 0 else 1 + FirstEntry(signals[1..], sig)
  }

  /** Entry k was delivered and its handler was not called afterwards. */
  predicate Owed(log: seq<Event>, k: nat) {
    log != [] && (
      log[|log| - 1] == Delivered(k)
      || (log[|log| - 1] != Called(k) && Owed(log[..|log| - 1], k)))
  }

  function Count(log: seq<Event>, e: Event): nat {
    if log == [] then 0 else Count(log[..|log| - 1], e) + if log[|log| - 1] == e then 1 else 0
  }

  lemma Append(log: seq<Event>, e: Event)
    ensures forall k: nat :: Owed(log + [e], k) <==> e == Delivered(k) || (e != Called(k) && Owed(log, k))
    ensures forall x :: Count(log + [e], x) == Count(log, x) + if x == e then 1 else 0
  {
    assert (log + [e])[..|log|] == log;
  }

  /** Owed says what it is meant to say. */
  lemma {:induction false} OwedMeans(log: seq<Event>, k: nat)
    ensures Owed(log, k) <==>
      exists i | 0 <= i < |log| :: log[i] == Delivered(k) && forall j | i < j < |log| :: log[j] != Called(k)
  {
    if log != [] {
      var n := |log| - 1;
      OwedMeans(log[..n], k);
      if Owed(log, k) && log[n] != Delivered(k) {
        var i :| 0 <= i < n && log[..n][i] == Delivered(k) && forall j | i < j < n :: log[..n][j] != Called(k);
        assert log[i] == Delivered(k);
        assert forall j | i < j < n :: log[..n][j] == log[j];
      }
      if i :| 0 <= i < |log| && log[i] == Delivered(k) && forall j | i < j < |log| :: log[j] != Called(k) {
        if i < n {
          assert log[..n][i] == Delivered(k);
          assert forall j | i < j < n :: log[..n][j] == log[j];
        }
      }
    }
  }

  /** One of these deliveries counts for entry k. */
  ghost predicate Hit(signals: seq<Entry>, batch: seq<int>, k: nat) {
    exists b | 0 <= b < |batch| :: FirstEntry(signals, batch[b]) == k
  }

  predicate SameSigs(s: seq<Entry>, t: seq<Entry>) {
    |s| == |t| && forall k | 0 <= k < |s| :: s[k].sig == t[k].sig
  }

  lemma FirstEntrySame(s: seq<Entry>, t: seq<Entry>, sig: int)
    requires SameSigs(s, t)
    ensures FirstEntry(s, sig) == FirstEntry(t, sig)
  {
  }

  lemma HitSame(s: seq<Entry>, t: seq<Entry>, batch: seq<int>, k: nat)
    requires SameSigs(s, t)
    ensures Hit(s, batch, k) <==> Hit(t, batch, k)
  {
    forall b | 0 <= b < |batch| ensures FirstEntry(s, batch[b]) == FirstEntry(t, batch[b]) {
      FirstEntrySame(s, t, batch[b]);
    }
  }

  lemma HitNext(signals: seq<Entry>, batch: seq<int>, b: nat, k: nat)
    requires b < |batch|
    ensures Hit(signals, batch[..b + 1], k) <==> Hit(signals, batch[..b], k) || FirstEntry(signals, batch[b]) == k
  {
    var more := batch[..b + 1];
    assert more[b] == batch[b] && more[..b] == batch[..b];
    if Hit(signals, batch[..b], k) {
      var c :| 0 <= c < b && FirstEntry(signals, batch[..b][c]) == k;
      assert more[c] == batch[..b][c];
    }
    if Hit(signals, more, k) {
      var c :| 0 <= c < |more| && FirstEntry(signals, more[c]) == k;
      assert c < b ==> batch[..b][c] == more[c];
    }
  }

  /** Entries behind those of s do not change what counts for one of s. */
  lemma HitLonger(s: seq<Entry>, t: seq<Entry>, batch: seq<int>, k: nat)
    requires |s| <= |t| && SameSigs(s, t[..|s|]) && k < |s|
    ensures Hit(s, batch, k) <==> Hit(t, batch, k)
  {
    forall b | 0 <= b < |batch| ensures FirstEntry(s, batch[b]) == k <==> FirstEntry(t, batch[b]) == k {
      var i, j := FirstEntry(s, batch[b]), FirstEntry(t, batch[b]);
      assert forall x | 0 <= x < |s| :: t[..|s|][x] == t[x];
    }
  }

  /** What deliveries do to a table and to what is owed: exactly the entries hit are owed a call and counted. */
  ghost predicate Delivers(before: seq<Entry>, log0: seq<Event>, after: seq<Entry>, log: seq<Event>, batch: seq<int>) {
    && SameSigs(before, after) && log0 <= log
    && forall k | 0 <= k < |before| ::
         && after[k].signaled >= before[k].signaled
         && (after[k].signaled > 0 <==> before[k].signaled > 0 || Hit(before, batch, k))
         && (Owed(log, k) <==> Owed(log0, k) || Hit(before, batch, k))
  }

  lemma DeliversNext(before: seq<Entry>, log0: seq<Event>, now: seq<Entry>, log: seq<Event>, batch: seq<int>, b: nat)
    requires b < |batch| && Delivers(before, log0, now, log, batch[..b])
    ensures var k := FirstEntry(now, batch[b]);
      if k < |now| then Delivers(before, log0, now[k := Entry(batch[b], now[k].signaled + 1)], log + [Delivered(k)], batch[..b + 1])
      else Delivers(before, log0, now, log, batch[..b + 1])
  {
    FirstEntrySame(before, now, batch[b]);
    Append(log, Delivered(FirstEntry(now, batch[b])));
    forall k: nat | k < |before|
      ensures Hit(before, batch[..b + 1], k) <==> Hit(before, batch[..b], k) || FirstEntry(before, batch[b]) == k
    {
      HitNext(before, batch, b, k);
    }
  }

  /** A signal registered only now was never delivered. */
  lemma {:induction false} NewIsQuiet(log: seq<Event>, n: nat)
    requires forall i | 0 <= i < |log| :: log[i].k < n
    ensures !Owed(log, n) && Count(log, Called(n)) == 0
  {
    if log != [] {
      NewIsQuiet(log[..|log| - 1], n);
    }
  }

  class SignalTable {
    var signals: seq<Entry>
    var signaled: nat               // the global counter, looked at before the table is scanned
    var pendingTerminate: bool
    var alarmArmed: bool            // alarm(2) is running and would kill the process
    ghost var log: seq<Event>

    /** Holds between any two accesses to shared memory: the alarm runs only while pendingTerminate is set,
        and no handler is called more often than its signal was delivered. The entry in the gap, if any, is
        the one whose counter the scan has cleared and whose handler it is about to call. */
    ghost predicate Shared(gap: int)
      reads this
    {
      && (alarmArmed ==> pendingTerminate)
      && (forall k | 0 <= k < |signals| ::
            Count(log, Called(k)) + signals[k].signaled + (if k == gap then 1 else 0) <= Count(log, Delivered(k)))
      && (forall i | 0 <= i < |log| :: log[i].k < |signals|)
    }

    /** If the scan, at entry i, has passed an entry whose counter is raised, the global counter is raised too, so
        that there will be another scan. */
    ghost predicate Tracked(i: nat, gap: int)
      reads this
    {
      forall k | 0 <= k < |signals| :: signals[k].signaled > 0 && (k < i || k == gap) ==> signaled > 0
    }

    /** Entry k is owed a call and nothing says so: its counter is down, and it is not in the gap. */
    ghost predicate Lost(k: nat, gap: int)
      reads this
    {
      k < |signals| && Owed(log, k) && signals[k].signaled == 0 && k != gap
    }

    /** No signal is lost: what is owed a call has its own counter raised. */
    ghost predicate NoneLost()
      reads this
    {
      forall k: nat :: !Lost(k, -1)
    }

    /** Holds whenever no scan is running: where a counter is raised there will be another scan, and a running
        alarm will be stopped. */
    ghost predicate Valid()
      reads this
    {
      && Shared(-1) && Tracked(|signals|, -1)
      && (pendingTerminate <==> alarmArmed)
      && (pendingTerminate ==> signaled > 0)
    }

    constructor ()
      ensures Valid() && NoneLost() && signals == [] && log == [] && signaled == 0
    {
      signals, signaled, pendingTerminate, alarmArmed, log := [], 0, false, false, [];
    }

    /** eloop_register_signal, outside the scan or in a handler that a scan at entry i has called. If the table
        moves, deliveries still go to the old one until the pointer is moved: what they raise there is
        forgotten. A signal gets lost exactly if it was not counted before and is delivered then. */
    method RegisterSignal(sig: int, moved: bool, early: seq<int>, late: seq<int>, ghost i: nat)
      requires Shared(-1) && Tracked(i, -1) && i <= |signals|
      modifies this
      ensures |signals| == |old(signals)| + 1 && signals[|old(signals)|].sig == sig && SameSigs(signals[..|old(signals)|], old(signals))
      ensures Shared(-1) && Tracked(i, -1) && (i == |old(signals)| ==> Tracked(|signals|, -1))
      ensures AlarmAfter(old(pendingTerminate), old(alarmArmed), old(signaled)) && old(log) <= log
      ensures forall k | 0 <= k < |old(signals)| :: signals[k].signaled >= old(signals)[k].signaled
      ensures forall k: nat | k < |old(signals)| ::
        var hit := Hit(old(signals), early, k) || Hit(old(signals), late, k);
        Lost(k, -1) <==> if moved then old(Lost(k, -1)) || (hit && old(signals)[k].signaled == 0) else old(Lost(k, -1)) && !hit
      ensures !Lost(|old(signals)|, -1)
      ensures old(NoneLost()) ==> (NoneLost() <==> !moved || forall k: nat | k < |old(signals)| &&
        (Hit(old(signals), early, k) || Hit(old(signals), late, k)) :: old(signals)[k].signaled > 0)
      ensures i == |old(signals)| && old(Valid()) ==> Valid()
    {
      if moved {
        RegisterMoved(sig, early, late, i);
      } else {
        RegisterInPlace(sig, early, late, i);
      }
    }

    /** The table is copied, and the copy replaces it only after the deliveries. */
    method RegisterMoved(sig: int, early: seq<int>, late: seq<int>, ghost i: nat)
      requires Shared(-1) && Tracked(i, -1) && i <= |signals|
      modifies this
      ensures signals == old(signals) + [Entry(sig, 0)]
      ensures Shared(-1) && Tracked(i, -1) && (i == |old(signals)| ==> Tracked(|signals|, -1))
      ensures AlarmAfter(old(pendingTerminate), old(alarmArmed), old(signaled)) && old(log) <= log
      ensures forall k: nat | k < |old(signals)| ::
        Lost(k, -1) <==> old(Lost(k, -1)) || ((Hit(old(signals), early, k) || Hit(old(signals), late, k)) && old(signals)[k].signaled == 0)
      ensures !Lost(|old(signals)|, -1)
    {
      var tmp := signals + [Entry(sig, 0)];
      Deliver(early, i, -1);
      ghost var between := signals;
      Deliver(late, i, -1);
      forall k: nat ensures Hit(between, late, k) <==> Hit(old(signals), late, k) {
        HitSame(old(signals), between, late, k);
      }
      NewIsQuiet(log, |signals|);
      signals := tmp;
    }

    /** The table grows where it is; the new entry is seen once the number of entries is raised. */
    method RegisterInPlace(sig: int, early: seq<int>, late: seq<int>, ghost i: nat)
      requires Shared(-1) && Tracked(i, -1) && i <= |signals|
      modifies this
      ensures |signals| == |old(signals)| + 1 && SameSigs(old(signals) + [Entry(sig, 0)], signals)
      ensures Shared(-1) && Tracked(i, -1) && (i == |old(signals)| ==> Tracked(|signals|, -1))
      ensures AlarmAfter(old(pendingTerminate), old(alarmArmed), old(signaled)) && old(log) <= log
      ensures forall k | 0 <= k < |old(signals)| :: signals[k].signaled >= old(signals)[k].signaled
      ensures forall k: nat | k < |old(signals)| ::
        Lost(k, -1) <==> old(Lost(k, -1)) && !Hit(old(signals), early, k) && !Hit(old(signals), late, k)
      ensures !Lost(|old(signals)|, -1)
    {
      Deliver(early, i, -1);
      AppendEntry(sig, i);
      ghost var between := signals;
      DeliverLonger(late, if i + 1 == |between| then i + 1 else i, old(signals));
    }

    method AppendEntry(sig: int, ghost i: nat)
      requires Shared(-1) && Tracked(i, -1) && i <= |signals|
      modifies this`signals
      ensures signals == old(signals) + [Entry(sig, 0)] && !Owed(log, |old(signals)|)
      ensures Shared(-1) && Tracked(i, -1) && (i == |old(signals)| ==> Tracked(|signals|, -1))
    {
      NewIsQuiet(log, |signals|);
      signals := signals + [Entry(sig, 0)];
    }

    /** Deliveries to a table that is longer than one with the same signals in front. */
    method DeliverLonger(batch: seq<int>, ghost i: nat, ghost front: seq<Entry>)
      requires Shared(-1) && Tracked(i, -1) && |front| <= |signals| && SameSigs(front, signals[..|front|])
      requires forall k: nat | |front| <= k < |signals| :: !Lost(k, -1)
      modifies this
      ensures Shared(-1) && Tracked(i, -1) && SameSigs(old(signals), signals) && old(log) <= log
      ensures AlarmAfter(old(pendingTerminate), old(alarmArmed), old(signaled))
      ensures forall k | 0 <= k < |signals| :: signals[k].signaled >= old(signals)[k].signaled
      ensures forall k: nat | k < |front| :: Lost(k, -1) <==> old(Lost(k, -1)) && !Hit(front, batch, k)
      ensures forall k: nat | |front| <= k < |signals| :: !Lost(k, -1)
    {
      ghost var between := signals;
      Deliver(batch, i, -1);
      forall k: nat | k < |front| ensures Hit(between, batch, k) <==> Hit(front, batch, k) {
        HitLonger(front, between, batch, k);
      }
    }

    /** Deliveries keep or raise the global counter, and arm the alarm only together with pendingTerminate. */
    ghost predicate AlarmAfter(pending0: bool, armed0: bool, signaled0: nat)
      reads this
    {
      && signaled >= signaled0
      && (pending0 ==> pendingTerminate && alarmArmed == armed0)
      && (!pending0 ==> (pendingTerminate <==> alarmArmed) && (pendingTerminate ==> signaled > signaled0))
    }

    /** eloop_handle_signal */
    method HandleSignal(sig: int)
      modifies this
      ensures var k := FirstEntry(old(signals), sig);
        && signaled == old(signaled) + 1
        && (if k < |old(signals)| then
              signals == old(signals)[k := Entry(sig, old(signals)[k].signaled + 1)] && log == old(log) + [Delivered(k)]
            else signals == old(signals) && log == old(log))
      ensures pendingTerminate == (old(pendingTerminate) || sig == SIGINT || sig == SIGTERM)
      ensures alarmArmed == (old(alarmArmed) || (!old(pendingTerminate) && pendingTerminate))
    {
      if (sig == SIGINT || sig == SIGTERM) && !pendingTerminate {
        pendingTerminate := true;
        alarmArmed := true;
      }
      signaled := signaled + 1;
      var i := 0;
      while i < |signals|
        invariant i <= |signals|
        invariant forall j | 0 <= j < i :: signals[j].sig != sig
      {
        if signals[i].sig == sig {
          break;
        }
        i := i + 1;
      }
      assert i == FirstEntry(signals, sig);
      if i < |signals| {
        signals := signals[i := signals[i].(signaled := signals[i].signaled + 1)];
        log := log + [Delivered(i)];
      }
    }

    method DeliverOne(sig: int, ghost i: nat, ghost gap: int)
      requires Shared(gap) && Tracked(i, gap)
      modifies this
      ensures Shared(gap) && Tracked(i, gap)
      ensures AlarmAfter(old(pendingTerminate), old(alarmArmed), old(signaled)) && signaled > old(signaled)
      ensures var k := FirstEntry(old(signals), sig);
        if k < |old(signals)| then
          signals == old(signals)[k := Entry(sig, old(signals)[k].signaled + 1)] && log == old(log) + [Delivered(k)]
        else signals == old(signals) && log == old(log)
    {
      Append(log, Delivered(FirstEntry(signals, sig)));
      HandleSignal(sig);
    }

    /** Deliveries at one point of a scan that is at entry i keep what the scan relies on there, and lose nothing. */
    method Deliver(batch: seq<int>, ghost i: nat, ghost gap: int)
      requires Shared(gap) && Tracked(i, gap)
      modifies this
      ensures Shared(gap) && Tracked(i, gap)
      ensures AlarmAfter(old(pendingTerminate), old(alarmArmed), old(signaled))
      ensures Delivers(old(signals), old(log), signals, log, batch)
      ensures forall k: nat :: Lost(k, gap) ==> old(Lost(k, gap))
    {
      var b := 0;
      while b < |batch|
        invariant b <= |batch|
        invariant Shared(gap) && Tracked(i, gap)
        invariant AlarmAfter(old(pendingTerminate), old(alarmArmed), old(signaled))
        invariant Delivers(old(signals), old(log), signals, log, batch[..b])
      {
        DeliverNext(batch, b, i, gap, old(signals), old(log));
        b := b + 1;
      }
      assert batch[..b] == batch;
    }

    method DeliverNext(batch: seq<int>, b: nat, ghost i: nat, ghost gap: int, ghost before: seq<Entry>, ghost log0: seq<Event>)
      requires b < |batch| && Shared(gap) && Tracked(i, gap) && Delivers(before, log0, signals, log, batch[..b])
      modifies this
      ensures Shared(gap) && Tracked(i, gap) && Delivers(before, log0, signals, log, batch[..b + 1])
      ensures AlarmAfter(old(pendingTerminate), old(alarmArmed), old(signaled))
    {
      DeliversNext(before, log0, signals, log, batch, b);
      DeliverOne(batch[b], i, gap);
    }

    /** Calls the handler of entry i, whose counter the scan has just cleared. */
    method CallHandler(i: nat)
      requires i < |signals| && Shared(i) && Tracked(i, i)
      modifies this`log
      ensures log == old(log) + [Called(i)]
      ensures Shared(-1) && Tracked(i + 1, -1)
      ensures forall k: nat :: Lost(k, -1) ==> old(Lost(k, i))
    {
      Append(log, Called(i));
      log := log + [Called(i)];
    }

    /** What a scan at entry i relies on, outside the calls of handlers. */
    ghost predicate Scanning(i: nat)
      reads this
    {
      && Shared(-1) && Tracked(i, -1)
      && (pendingTerminate <==> alarmArmed)
      && (pendingTerminate ==> signaled > 0)
    }

    /** Since a moment with these counters and events, with signals registered behind the old ones only: no counter
        of an entry from i on went down. */
    ghost predicate Since(before: seq<Entry>, log0: seq<Event>, i: nat)
      reads this
    {
      && log0 <= log && |signals| >= |before|
      && forall k | i <= k < |before| :: signals[k].signaled >= before[k].signaled
    }

    /** The start of a scan: takes the global counter down and stops a running alarm. */
    method BeginScan(schedule: nat -> seq<int>)
      requires Valid()
      modifies this
      ensures Scanning(0) && |signals| == |old(signals)| && Since(old(signals), old(log), 0)
      ensures forall k: nat :: Lost(k, -1) ==> old(Lost(k, -1))
    {
      Deliver(schedule(1), |signals|, -1);
      signaled := 0;
      Deliver(schedule(2), 0, -1);
      if pendingTerminate {
        StopAlarm(schedule);
      }
    }

    method StopAlarm(schedule: nat -> seq<int>)
      requires Shared(-1) && Tracked(0, -1) && pendingTerminate
      modifies this
      ensures Scanning(0) && |signals| == |old(signals)| && Since(old(signals), old(log), 0)
      ensures forall k: nat :: Lost(k, -1) ==> old(Lost(k, -1))
    {
      Deliver(schedule(3), 0, -1);
      alarmArmed := false;
      Deliver(schedule(4), 0, -1);
      pendingTerminate := false;
    }

    /** The body of a handler called by a scan that goes on at entry i. */
    method RunHandler(acts: seq<Act>, ghost i: nat)
      requires Scanning(i) && i <= |signals|
      modifies this
      ensures Scanning(i) && Since(old(signals), old(log), 0)
      ensures acts == [] ==> |signals| == |old(signals)|
      ensures Safe(acts) ==> forall k: nat :: Lost(k, -1) ==> old(Lost(k, -1))
    {
      var a := 0;
      while a < |acts|
        invariant a <= |acts| && Scanning(i) && i <= |signals| && Since(old(signals), old(log), 0)
        invariant acts == [] ==> |signals| == |old(signals)|
        invariant Safe(acts) ==> forall k: nat :: Lost(k, -1) ==> old(Lost(k, -1))
      {
        PerformAct(acts[a], i);
        a := a + 1;
      }
    }

    method PerformAct(act: Act, ghost i: nat)
      requires Scanning(i) && i <= |signals|
      modifies this
      ensures Scanning(i) && Since(old(signals), old(log), 0)
      ensures (act.Register? && act.moved ==> act.early == act.late == []) ==>
        forall k: nat :: Lost(k, -1) ==> old(Lost(k, -1))
    {
      match act {
        case Arrive(sig) => Deliver([sig], i, -1);
        case Register(sig, moved, early, late) =>
          RegisterSignal(sig, moved, early, late, i);
          assert forall k: nat | Lost(k, -1) :: k < |signals|;
      }
    }

    /** The scan's step at entry i; acts is what its handler does, should it be called. */
    method ScanEntry(i: nat, schedule: nat -> seq<int>, acts: seq<Act>) returns (called: bool)
      requires i < |signals| && Scanning(i)
      modifies this
      ensures Scanning(i + 1) && Since(old(signals), old(log), i + 1)
      ensures !called || acts == [] ==> |signals| == |old(signals)|
      ensures old(signals)[i].signaled > 0 ==> CalledSince(log, |old(log)|, i)
      ensures Safe(acts) ==> forall k: nat :: Lost(k, -1) ==> old(Lost(k, -1))
    {
      Deliver(schedule(5 + 4 * i), i, -1);
      called := signals[i].signaled > 0;
      if called {
        TakeEntry(i, schedule, acts);
      }
    }

    /** Clears a raised counter and calls the handler. */
    method TakeEntry(i: nat, schedule: nat -> seq<int>, acts: seq<Act>)
      requires i < |signals| && signals[i].signaled > 0 && Scanning(i)
      modifies this
      ensures Scanning(i + 1) && Since(old(signals), old(log), i + 1)
      ensures acts == [] ==> |signals| == |old(signals)|
      ensures CalledSince(log, |old(log)|, i)
      ensures Safe(acts) ==> forall k: nat :: Lost(k, -1) ==> old(Lost(k, -1))
    {
      Deliver(schedule(6 + 4 * i), i, -1);
      ClearAndCall(i, schedule(7 + 4 * i));
      ghost var called := |log| - 1;
      RunHandler(acts, i + 1);
      Deliver(schedule(8 + 4 * i), i + 1, -1);
      assert log[called] == Called(i);
    }

    /** The two accesses that clear the counter and call the handler, with deliveries between them. */
    method ClearAndCall(i: nat, batch: seq<int>)
      requires i < |signals| && signals[i].signaled > 0 && Scanning(i)
      modifies this
      ensures Scanning(i + 1) && |signals| == |old(signals)| && Since(old(signals), old(log), i + 1)
      ensures |log| > |old(log)| && log[|log| - 1] == Called(i)
      ensures forall k: nat :: Lost(k, -1) ==> old(Lost(k, -1))
    {
      signals := signals[i := signals[i].(signaled := 0)];
      Deliver(batch, i, i);
      CallHandler(i);
    }

    /** eloop_process_pending_signals, with deliveries at every point and handlers that may register signals;
        handlers called beyond the list do neither. No signal gets lost, unless one is delivered while a handler's
        registration has the table copied: each delivery, before or during the scan, was followed by a call of
        its handler or has left both its own counter and the global one raised. What was counted before the
        scan has been called during it, whatever happens in registrations. */
    method ProcessPendingSignals(schedule: nat -> seq<int>, handlers: seq<seq<Act>>)
      requires Valid()
      modifies this
      ensures Valid() && |signals| >= |old(signals)| && old(log) <= log
      ensures forall k | 0 <= k < |old(signals)| && old(signals)[k].signaled > 0 :: CalledSince(log, |old(log)|, k)
      ensures AllSafe(handlers) ==> forall k: nat :: Lost(k, -1) ==> old(Lost(k, -1))
      ensures AllSafe(handlers) && old(NoneLost()) ==> NoneLost()
    {
      Deliver(schedule(0), |signals|, -1);
      if signaled == 0 {
        return;
      }
      BeginScan(schedule);
      var i, calls := 0, 0;
      while i < |signals|
        invariant i <= |signals| && calls <= |handlers| && Scanning(i) && Served(i, old(signals), old(log))
        invariant AllSafe(handlers) ==> forall k: nat :: Lost(k, -1) ==> old(Lost(k, -1))
        decreases |handlers| - calls, |signals| - i
      {
        var acts := if calls < |handlers| then handlers[calls] else [];
        var called := ScanTurn(i, schedule, acts, old(signals), old(log));
        if called && calls < |handlers| {
          calls := calls + 1;
        }
        i := i + 1;
      }
    }

    /** The entries before i that were counted when the scan began have been called, the others still are. */
    ghost predicate Served(i: nat, before: seq<Entry>, log0: seq<Event>)
      reads this
    {
      && Since(before, log0, i)
      && (forall k | 0 <= k < i && k < |before| && before[k].signaled > 0 :: CalledSince(log, |log0|, k))
    }

    method ScanTurn(i: nat, schedule: nat -> seq<int>, acts: seq<Act>, ghost before: seq<Entry>, ghost log0: seq<Event>)
      returns (called: bool)
      requires i < |signals| && Scanning(i) && Served(i, before, log0)
      modifies this
      ensures Scanning(i + 1) && Served(i + 1, before, log0)
      ensures |signals| >= |old(signals)| && (!called || acts == [] ==> |signals| == |old(signals)|)
      ensures Safe(acts) ==> forall k: nat :: Lost(k, -1) ==> old(Lost(k, -1))
    {
      ghost var l := log;
      called := ScanEntry(i, schedule, acts);
      CalledLater(l, log, |log0|);
    }
  }

  predicate AllSafe(handlers: seq<seq<Act>>) {
    forall h | 0 <= h < |handlers| :: Safe(handlers[h])
  }

  /** A SIGHUP that comes while the registration of another signal has the table copied: its handler is owed a
      call, and no counter of its own says so. */
  method LostWhileRegistering() returns (t: SignalTable)
    ensures fresh(t) && t.Valid() && t.Lost(0, -1)
    ensures t.signals == [Entry(SIGHUP, 0), Entry(SIGINT, 0)]
  {
    t := new SignalTable();
    t.RegisterMoved(SIGHUP, [], [], 0);
    ghost var one := t.signals;
    assert one == [Entry(SIGHUP, 0)];
    assert Hit(one, [SIGHUP], 0) by {
      assert FirstEntry(one, [SIGHUP][0]) == 0;
    }
    t.RegisterMoved(SIGINT, [SIGHUP], [], 0);
  }

  /** The handler of entry k was called after the first n events. */
  ghost predicate CalledSince(log: seq<Event>, n: nat, k: nat) {
    exists j | n <= j < |log| :: log[j] == Called(k)
  }

  lemma CalledLater(log: seq<Event>, log': seq<Event>, n: nat)
    requires log <= log' && n <= |log|
    ensures forall k: nat :: CalledSince(log, n, k) ==> CalledSince(log', n, k)
    ensures forall k: nat :: CalledSince(log', |log|, k) ==> CalledSince(log', n, k)
  {
    forall k: nat | CalledSince(log, n, k)
      ensures CalledSince(log', n, k)
    {
      var j :| n <= j < |log| && log[j] == Called(k);
      assert log'[j] == Called(k);
    }
  }
}
